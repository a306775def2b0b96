/**
 The response cache over the two tiers (groove/proxy/cache.go): when a response or a failure
 is stored under a request's key, and when a stored entry may be served.
 */
module ResponseCache {
  import opened Prelude
  import opened Archives
  import opened RecencyList
  import opened Invalidator
  import opened TierProperties
  import opened TierOrder

  datatype Mode = Off | Standard | GetAggressive | Aggressive

  // A nil value marks a request that failed outright.
  datatype CacheEntry = CacheEntry(expires: int, value: Option<ArchivedResponse>, error: string)

  // cacheKey is what getCacheKey gives for the request.
  datatype Request = Request(verb: string, cacheKey: string)

  // The entry encoding; encoding may fail.
  datatype Codec = Codec(encode: CacheEntry -> Option<Bytes>, decode: Bytes -> Option<CacheEntry>)

  ghost predicate RoundTrips(codec: Codec) {
    forall e: CacheEntry :: codec.encode(e).Some? ==> codec.decode(codec.encode(e).value) == Some(e)
  }

  predicate IsAggressive(mode: Mode, request: Request) {
    mode == Aggressive || (mode == GetAggressive && request.verb == "GET")
  }

  predicate EntryIsValid(mode: Mode, request: Request, entry: CacheEntry, now: int) {
    IsAggressive(mode, request) || now < entry.expires
  }

  // What a lookup serves from the tiers' state.
  function Served(t: Tiers, codec: Codec, mode: Mode, request: Request, now: int, readOk: bool): Option<CacheEntry> {
    if mode.Off? then None
    else match AnswerOf(t, request.cacheKey, readOk)
      case Found(bytes) => (
        match codec.decode(bytes)
        case Some(entry) => if EntryIsValid(mode, request, entry, now) then Some(entry) else None
        case None => None)
      case _ => None
  }

  class Cache {
    var mode: Mode
    const codec: Codec
    const cacheDiskCache: CacheInvalidator

    ghost predicate Valid()
      reads this, cacheDiskCache, cacheDiskCache.memoryCache, cacheDiskCache.diskCache
    {
      cacheDiskCache.Valid()
    }

    constructor (codec: Codec, store: CacheInvalidator)
      requires store.Valid()
      ensures Valid() && mode == Standard && this.codec == codec && cacheDiskCache == store
    {
      mode := Standard;
      this.codec := codec;
      cacheDiskCache := store;
    }

    /** noStoreReasons is what the Cache-Control analysis found against storing, expires its date,
        archived the response with its body, absent if the body could not be read. */
    method SetValidCacheContents(request: Request, noStoreReasons: nat, expires: int,
                                 archived: Option<ArchivedResponse>, writeOk: bool)
      requires Valid()
      modifies cacheDiskCache, cacheDiskCache.memoryCache, cacheDiskCache.diskCache
      ensures Valid()
      ensures cacheDiskCache.State()
           == Perform(old(cacheDiskCache.State()), cacheDiskCache.Settings(), codec, mode,
                      StoreValid(request, noStoreReasons, expires, archived, writeOk))
    {
      if mode == Off {
        return;
      }
      if IsAggressive(mode, request) || noStoreReasons == 0 {
        var _ := cacheDiskCache.Set(request.cacheKey, codec.encode(CacheEntry(expires, archived, "")), writeOk);
      }
    }

    // expires is 24 hours from the time of the failure.
    method SetFailedCacheContents(request: Request, expires: int, error: string, writeOk: bool)
      requires Valid()
      modifies cacheDiskCache, cacheDiskCache.memoryCache, cacheDiskCache.diskCache
      ensures Valid()
      ensures cacheDiskCache.State()
           == Perform(old(cacheDiskCache.State()), cacheDiskCache.Settings(), codec, mode,
                      StoreFailure(request, expires, error, writeOk))
    {
      if !IsAggressive(mode, request) {
        return;
      }
      var _ := cacheDiskCache.Set(request.cacheKey, codec.encode(CacheEntry(expires, None, error)), writeOk);
    }

    method GetCacheContents(request: Request, now: int, readOk: bool) returns (entry: Option<CacheEntry>)
      requires Valid()
      modifies cacheDiskCache.memoryCache, cacheDiskCache.diskCache
      ensures Valid()
      ensures entry == Served(old(cacheDiskCache.State()), codec, mode, request, now, readOk)
      ensures cacheDiskCache.State()
           == Perform(old(cacheDiskCache.State()), cacheDiskCache.Settings(), codec, mode, Lookup(request, readOk))
    {
      if mode == Off {
        return None;
      }
      var present := cacheDiskCache.Has(request.cacheKey);
      if !present {
        LookupOfAbsent(cacheDiskCache.State(), request.cacheKey, readOk);
        return None;
      }
      var answer := cacheDiskCache.Get(request.cacheKey, readOk);
      if !answer.Found? {
        return None;
      }
      var decoded := codec.decode(answer.value);
      if decoded.Some? && EntryIsValid(mode, request, decoded.value, now) {
        return decoded;
      }
      entry := None;
    }
  }

  lemma LookupOfAbsent(t: Tiers, key: string, readOk: bool)
    requires !HasKey(t.memory, key) && !HasKey(t.disk, key)
    ensures AfterLookup(t, key) == t && AnswerOf(t, key, readOk) == NotFound
  {
    FindIsMembership(t.memory, key);
    FindIsMembership(t.disk, key);
  }

  // --- Whole runs ---

  datatype Event =
    | SetMode(mode: Mode)
    | StoreValid(request: Request, noStoreReasons: nat, expires: int, archived: Option<ArchivedResponse>, writeOk: bool)
    | StoreFailure(request: Request, expires: int, error: string, writeOk: bool)
    | Lookup(request: Request, readOk: bool)
    | ClearAll
    | IndexSaved(view: View)

  // The entry an event asks the tiers to store, if it asks for one.
  function EntryToStore(mode: Mode, event: Event): Option<CacheEntry> {
    match event
    case StoreValid(request, reasons, expires, archived, _) =>
      if mode != Off && (IsAggressive(mode, request) || reasons == 0) then Some(CacheEntry(expires, archived, ""))
          else None
    case StoreFailure(request, expires, error, _) =>
      if IsAggressive(mode, request) then Some(CacheEntry(expires, None, error)) else None
    case _ => None
  }

  // The tier operations an event amounts to.
  function TierOps(codec: Codec, mode: Mode, event: Event): seq<Op> {
    match event
    case SetMode(_) => []
    case Lookup(request, readOk) => if mode.Off? then [] else [GetOp(request.cacheKey, readOk)]
    case ClearAll => [ClearOp]
    case IndexSaved(view) => [SaveOp(view)]
    case _ =>
      var entry := EntryToStore(mode, event);
      if entry.None? then [] else [SetOp(event.request.cacheKey, codec.encode(entry.value), event.writeOk)]
  }

  function Perform(t: Tiers, c: Config, codec: Codec, mode: Mode, event: Event): Tiers {
    var ops := TierOps(codec, mode, event);
    if ops == [] then t else Step(t, c, ops[0])
  }

  function ModeAfter(events: seq<Event>): Mode {
    if events == [] then Standard
    else match events[|events| - 1]
      case SetMode(mode) => mode
      case _ => ModeAfter(events[..|events| - 1])
  }

  function TiersAfter(c: Config, codec: Codec, events: seq<Event>): Tiers {
    if events == [] then Empty() else
      var earlier := events[..|events| - 1];
      Perform(TiersAfter(c, codec, earlier), c, codec, ModeAfter(earlier), events[|events| - 1])
  }

  // The latest entry stored under key since the last clearing.
  function LatestEntry(codec: Codec, events: seq<Event>, key: string): Option<CacheEntry> {
    if events == [] then None else
      var earlier := events[..|events| - 1];
      var event := events[|events| - 1];
      var entry := EntryToStore(ModeAfter(earlier), event);
      if event.ClearAll? then None
      else if entry.Some? && event.request.cacheKey == key && codec.encode(entry.value).Some? then entry
      else LatestEntry(codec, earlier, key)
  }

  function OpsAfter(codec: Codec, events: seq<Event>): seq<Op> {
    if events == [] then [] else
      var earlier := events[..|events| - 1];
      OpsAfter(codec, earlier) + TierOps(codec, ModeAfter(earlier), events[|events| - 1])
  }

  function Encoded(codec: Codec, entry: Option<CacheEntry>): Option<Bytes> {
    match entry case None => None case Some(e) => codec.encode(e)
  }

  lemma OpsGrow(codec: Codec, events: seq<Event>)
    requires events != []
    ensures var earlier := OpsAfter(codec, events[..|events| - 1]);
            var ops := TierOps(codec, ModeAfter(events[..|events| - 1]), events[|events| - 1]);
            OpsAfter(codec, events) == if ops == [] then earlier else earlier + [ops[0]]
  {
    var earlier := OpsAfter(codec, events[..|events| - 1]);
    var ops := TierOps(codec, ModeAfter(events[..|events| - 1]), events[|events| - 1]);
    assert OpsAfter(codec, events) == earlier + ops;
    assert ops == [] || ops == [ops[0]];
  }

  lemma {:induction false} TiersRunTheOps(c: Config, codec: Codec, events: seq<Event>)
    ensures TiersAfter(c, codec, events) == Run(c, OpsAfter(codec, events))
  {
    if events != [] {
      var earlier := events[..|events| - 1];
      TiersRunTheOps(c, codec, earlier);
      OpsGrow(codec, events);
      var all := OpsAfter(codec, events);
      if TierOps(codec, ModeAfter(earlier), events[|events| - 1]) != [] {
        assert all[..|all| - 1] == OpsAfter(codec, earlier);
      }
    }
  }

  lemma {:induction false} LatestIsLatestEntry(codec: Codec, events: seq<Event>, key: string)
    ensures Latest(OpsAfter(codec, events), key) == Encoded(codec, LatestEntry(codec, events, key))
    ensures LatestEntry(codec, events, key).Some? ==> codec.encode(LatestEntry(codec, events, key).value).Some?
  {
    if events != [] {
      var earlier := events[..|events| - 1];
      LatestIsLatestEntry(codec, earlier, key);
      OpsGrow(codec, events);
      var ops := TierOps(codec, ModeAfter(earlier), events[|events| - 1]);
      if ops == [] {
        LatestAfterQuietEvent(codec, events, key);
      } else {
        LatestAfterOp(OpsAfter(codec, earlier), ops[0], key);
        LatestAfterEvent(codec, events, key);
      }
    }
  }

  // What an event that reaches the tiers makes of the latest entry, by the operation it asks for.
  lemma LatestAfterEvent(codec: Codec, events: seq<Event>, key: string)
    requires events != [] && TierOps(codec, ModeAfter(events[..|events| - 1]), events[|events| - 1]) != []
    ensures var earlier := LatestEntry(codec, events[..|events| - 1], key);
            var op := TierOps(codec, ModeAfter(events[..|events| - 1]), events[|events| - 1])[0];
            var latest := LatestEntry(codec, events, key);
            match op
            case SetOp(k, encoded, _) =>
              if k == key && encoded.Some? then latest.Some? && codec.encode(latest.value) == encoded
              else latest == earlier
            case ClearOp => latest == None
            case DeleteOp(_) => false
            case _ => latest == earlier
  {
  }

  lemma LatestAfterOp(ops: seq<Op>, op: Op, key: string)
    ensures Latest(ops + [op], key)
         == match op
            case SetOp(k, encoded, _) => if k == key && encoded.Some? then encoded else Latest(ops, key)
            case DeleteOp(k) => if k == key then None else Latest(ops, key)
            case ClearOp => None
            case _ => Latest(ops, key)
  {
    assert (ops + [op])[..|ops|] == ops;
  }

  // An event that never reaches the tiers stores no entry.
  lemma LatestAfterQuietEvent(codec: Codec, events: seq<Event>, key: string)
    requires events != [] && TierOps(codec, ModeAfter(events[..|events| - 1]), events[|events| - 1]) == []
    ensures LatestEntry(codec, events, key) == LatestEntry(codec, events[..|events| - 1], key)
  {
  }

  /** Whatever was stored, evicted, cleared or failed to be written before, and however the mode
      changed, a lookup serves only the latest entry stored under the request's key, and serves
      it only unexpired unless the mode is aggressive for the request. */
  lemma LookupServesLatestEntry(c: Config, codec: Codec, events: seq<Event>, request: Request, now: int, readOk: bool)
    requires RoundTrips(codec)
    ensures var mode := ModeAfter(events);
            var served := Served(TiersAfter(c, codec, events), codec, mode, request, now, readOk);
            served.Some? ==>
              && served == LatestEntry(codec, events, request.cacheKey)
              && mode != Off
              && (mode == Aggressive || (mode == GetAggressive && request.verb == "GET") || now < served.value.expires)
  {
    TiersRunTheOps(c, codec, events);
    LatestIsLatestEntry(codec, events, request.cacheKey);
    NeverStale(c, OpsAfter(codec, events), request.cacheKey, readOk);
  }

  /** Conversely a resident latest entry that is still valid is served by a successful read. */
  lemma ResidentEntryIsServed(c: Config, codec: Codec, events: seq<Event>, request: Request, now: int)
    requires RoundTrips(codec) && ModeAfter(events) != Off
    requires var t := TiersAfter(c, codec, events);
             HasKey(t.memory, request.cacheKey) || HasKey(t.disk, request.cacheKey)
    ensures LatestEntry(codec, events, request.cacheKey).Some?
    ensures var entry := LatestEntry(codec, events, request.cacheKey).value;
            var mode := ModeAfter(events);
            Served(TiersAfter(c, codec, events), codec, mode, request, now, true)
            == if mode == Aggressive || (mode == GetAggressive && request.verb == "GET") || now < entry.expires
               then Some(entry) else None
  {
    TiersRunTheOps(c, codec, events);
    LatestIsLatestEntry(codec, events, request.cacheKey);
    NeverStale(c, OpsAfter(codec, events), request.cacheKey, true);
  }

  // --- One response ---

  // The entry is stored under the key in tiers that hold encoded bytes, and the lookup may serve it.
  lemma ServedAfterSet(t: Tiers, c: Config, codec: Codec, entry: CacheEntry, encoded: Bytes, writeOk: bool, mode: Mode,
                       asking: Request, now: int)
    requires RoundTrips(codec) && DistinctKeys(t.memory) && DistinctKeys(t.disk)
    requires codec.encode(entry) == Some(encoded) && mode != Off
    ensures Served(Step(t, c, SetOp(asking.cacheKey, Some(encoded), writeOk)), codec, mode, asking, now, true)
         == if (|encoded| <= c.memoryMax || (writeOk && |encoded| <= c.diskMax))
               && (mode == Aggressive || (mode == GetAggressive && asking.verb == "GET") || now < entry.expires)
            then Some(entry) else None
  {
    SetThenGet(t, c, asking.cacheKey, encoded, writeOk, true);
  }

  /** A response is stored if and only if the cache is not off and either the mode is aggressive
      for its request or nothing speaks against storing it; it then answers every request with its
      key, in a mode that is not off, with its expiry and archive and no error, as long as its
      encoding fits in a tier and, unless the mode is aggressive for that request, it has not
      expired. When it is not stored nothing changes. */
  lemma StoredResponseIsServed(t: Tiers, c: Config, codec: Codec, mode: Mode, request: Request, noStoreReasons: nat,
                               expires: int, archived: Option<ArchivedResponse>, writeOk: bool, mode': Mode,
                               asking: Request, now: int)
    requires RoundTrips(codec) && DistinctKeys(t.memory) && DistinctKeys(t.disk)
    requires asking.cacheKey == request.cacheKey && mode' != Off
    ensures var entry := CacheEntry(expires, archived, "");
            var after := Perform(t, c, codec, mode, StoreValid(request, noStoreReasons, expires, archived, writeOk));
            if && mode != Off
               && (mode == Aggressive || (mode == GetAggressive && request.verb == "GET") || noStoreReasons == 0)
               && codec.encode(entry).Some?
            then var size := |codec.encode(entry).value|;
                 Served(after, codec, mode', asking, now, true)
                 == if (size <= c.memoryMax || (writeOk && size <= c.diskMax))
                       && (mode' == Aggressive || (mode' == GetAggressive && asking.verb == "GET") || now < expires)
                    then Some(entry) else None
            else after == t
  {
    var entry := CacheEntry(expires, archived, "");
    if codec.encode(entry).Some? {
      ServedAfterSet(t, c, codec, entry, codec.encode(entry).value, writeOk, mode', asking, now);
    }
  }

  /** A failure is stored if and only if the mode is aggressive for its request, and is then
      served, without a response and with its error, under the same conditions. */
  lemma StoredFailureIsServed(t: Tiers, c: Config, codec: Codec, mode: Mode, request: Request, expires: int,
                              error: string, writeOk: bool, mode': Mode, asking: Request, now: int)
    requires RoundTrips(codec) && DistinctKeys(t.memory) && DistinctKeys(t.disk)
    requires asking.cacheKey == request.cacheKey && mode' != Off
    ensures var entry := CacheEntry(expires, None, error);
            var after := Perform(t, c, codec, mode, StoreFailure(request, expires, error, writeOk));
            if (mode == Aggressive || (mode == GetAggressive && request.verb == "GET")) && codec.encode(entry).Some?
            then var size := |codec.encode(entry).value|;
                 Served(after, codec, mode', asking, now, true)
                 == if (size <= c.memoryMax || (writeOk && size <= c.diskMax))
                       && (mode' == Aggressive || (mode' == GetAggressive && asking.verb == "GET") || now < expires)
                    then Some(entry) else None
            else after == t
  {
    var entry := CacheEntry(expires, None, error);
    if codec.encode(entry).Some? {
      ServedAfterSet(t, c, codec, entry, codec.encode(entry).value, writeOk, mode', asking, now);
    }
  }

  /** A lookup makes its key the freshest wherever it is resident, even when what it finds has
      expired; with the cache off it neither serves nor changes anything. */
  lemma LookupRefreshes(t: Tiers, c: Config, codec: Codec, mode: Mode, request: Request, now: int, readOk: bool,
                        level: Level)
    requires DistinctKeys(t.memory) && DistinctKeys(t.disk)
    ensures var items, after := TierOf(t, level), Perform(t, c, codec, mode, Lookup(request, readOk));
            if mode == Off then after == t && Served(t, codec, mode, request, now, readOk) == None
            else if HasKey(items, request.cacheKey)
            then && TierOf(after, level) != [] && TierOf(after, level)[0].key == request.cacheKey
                 && TierOf(after, level)[0] in items && TierOf(after, level)[1..] == Without(items, request.cacheKey)
            else TierOf(after, level) == items
  {
    GetBringsToFront(t, c, request.cacheKey, readOk, level);
  }
}
