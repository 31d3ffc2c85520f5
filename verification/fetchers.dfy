/**
 * `fetchCommands` and `fetchCommandDetail` as transitions: from the cache
 * contents, one clock reading and the reply the network would give, to the
 * result, the new cache contents and the address requested (if any).
 */
module Fetchers {
  import opened Wrappers
  import opened Text
  import opened Commands
  import opened Markdown
  import opened Cache

  /** Where the command index is published. */
  const IndexUrl := "https://unpkg.com/linux-command/dist/data.json"

  /** What a request produced: a reply with a status and a body, or no reply at all. */
  datatype Response<B> = Response(status: int, body: B) | NoResponse

  /** `response.ok`. */
  predicate IsOk(status: int) {
    200 <= status <= 299
  }

  /** Why a fetch failed; each stands for one `throw` (or rejection) of the source. */
  datatype FetchError =
    | ListStatus(status: int)
    | NotFound(name: string)
    | DetailStatus(status: int)
    | UnreadableBody
    | NetworkError

  /** A fetch's outcome, the cache afterwards, and the address requested when the cache missed. */
  datatype Fetched<T> = Fetched(result: Result<T, FetchError>, store: Store, requested: Option<string>)

  /**
   * The list fetch. A fresh readable list entry answers without a request;
   * otherwise the index is requested, a non-ok status or an unreadable body
   * fails without touching the cache, and a readable body is written under the
   * list key with the clock reading and returned, extended.
   * The body is `None` when `response.json()` rejects, otherwise the index's
   * records in `Object.values` order.
   */
  function FetchCommands(store: Store, now: int, codec: Codec<seq<RawCommand>>,
                         response: Response<Option<seq<RawCommand>>>): (f: Fetched<seq<Command>>)
    ensures f.requested.None? <==> Lookup(store, ListKey, now, ListTtl, codec).Some?
    ensures f.requested.None? ==> f.store == store
                                  && f.result == Success(TransformAll(Lookup(store, ListKey, now, ListTtl, codec).value))
    ensures f.requested.Some? ==> f.requested.value == IndexUrl
    ensures f.result.Failure? ==> f.store == store && f.requested.Some?
    ensures f.result == Failure(UnreadableBody) ==> response.Response? && IsOk(response.status)
    ensures forall k :: k != ListKey ==> (k in f.store <==> k in store) && (k in store ==> f.store[k] == store[k])
    ensures f.store != store ==>
              && response.Response? && IsOk(response.status) && response.body.Some?
              && f.store == Put(store, ListKey, codec, response.body.value, now)
              && f.result == Success(TransformAll(response.body.value))
    ensures f.requested.Some? ==>
              match response
              case NoResponse => f.result == Failure(NetworkError)
              case Response(status, body) =>
                if !IsOk(status) then f.result == Failure(ListStatus(status))
                else if body.None? then f.result == Failure(UnreadableBody)
                else f.result == Success(TransformAll(body.value))
                     && f.store == Put(store, ListKey, codec, body.value, now)
  {
    match Lookup(store, ListKey, now, ListTtl, codec)
    case Some(raws) => Fetched(Success(TransformAll(raws)), store, None)
    case None =>
      var requested := Some(IndexUrl);
      match response
      case NoResponse => Fetched(Failure(NetworkError), store, requested)
      case Response(status, body) =>
        if !IsOk(status) then Fetched(Failure(ListStatus(status)), store, requested)
        else
          match body
          case None => Fetched(Failure(UnreadableBody), store, requested)
          case Some(raws) => Fetched(Success(TransformAll(raws)), Put(store, ListKey, codec, raws, now), requested)
  }

  /**
   * The detail fetch for `name`. A fresh readable entry under the detail key
   * answers without a request; otherwise the reference page is requested,
   * status 404 fails as "not found", any other non-ok status fails with the
   * status, and an ok page is parsed, written under the detail key with the
   * clock reading and returned.
   */
  function FetchCommandDetail(store: Store, now: int, name: string, codec: Codec<CommandDetail>,
                              response: Response<string>): (f: Fetched<CommandDetail>)
    ensures f.requested.None? <==> Lookup(store, DetailKey(name), now, DetailTtl, codec).Some?
    ensures f.requested.None? ==> f.store == store
                                  && f.result == Success(Lookup(store, DetailKey(name), now, DetailTtl, codec).value)
    ensures f.requested.Some? ==> f.requested.value == DetailUrl(name)
    ensures f.result == Failure(NotFound(name)) <==> f.requested.Some? && response.Response? && response.status == 404
    ensures f.result.Failure? ==> f.store == store && f.requested.Some?
    ensures forall k :: k != DetailKey(name) ==> (k in f.store <==> k in store) && (k in store ==> f.store[k] == store[k])
    ensures f.requested.Some? && f.result.Success? ==>
              && response.Response? && IsOk(response.status)
              && f.result.value == ParseCommandMarkdown(name, response.body)
              && f.store == Put(store, DetailKey(name), codec, f.result.value, now)
    ensures f.requested.Some? ==>
              match response
              case NoResponse => f.result == Failure(NetworkError)
              case Response(status, body) =>
                if !IsOk(status) then
                  f.result == Failure(if status == 404 then NotFound(name) else DetailStatus(status))
                else f.result == Success(ParseCommandMarkdown(name, body))
                     && f.store == Put(store, DetailKey(name), codec, ParseCommandMarkdown(name, body), now)
  {
    var key := DetailKey(name);
    match Lookup(store, key, now, DetailTtl, codec)
    case Some(detail) => Fetched(Success(detail), store, None)
    case None =>
      var requested := Some(DetailUrl(name));
      match response
      case NoResponse => Fetched(Failure(NetworkError), store, requested)
      case Response(status, body) =>
        if !IsOk(status) then
          Fetched(Failure(if status == 404 then NotFound(name) else DetailStatus(status)), store, requested)
        else
          var detail := ParseCommandMarkdown(name, body);
          Fetched(Success(detail), Put(store, key, codec, detail, now), requested)
  }

  // ---------------------------------------------------------------------------
  // The fetchers and the cache together.

  /**
   * A list fetched from the network is served from the cache, unchanged and
   * without a request, by any later fetch younger than seven days.
   */
  lemma ListServedFromCache(store: Store, now: int, later: int, codec: Codec<seq<RawCommand>>,
                            response: Response<Option<seq<RawCommand>>>,
                            again: Response<Option<seq<RawCommand>>>)
    requires Faithful(codec)
    requires FetchCommands(store, now, codec, response).requested.Some?
    requires FetchCommands(store, now, codec, response).result.Success?
    requires later - now < ListTtl
    ensures var first := FetchCommands(store, now, codec, response);
            FetchCommands(first.store, later, codec, again) == Fetched(first.result, first.store, None)
  {
    var first := FetchCommands(store, now, codec, response);
    PutThenLookup(store, ListKey, codec, response.body.value, now, later, ListTtl);
  }

  /** A list entry exactly seven days old, or older, is no longer used: the index is requested again. */
  lemma ListExpires(store: Store, raws: seq<RawCommand>, written: int, now: int,
                    codec: Codec<seq<RawCommand>>, response: Response<Option<seq<RawCommand>>>)
    requires Faithful(codec)
    requires now - written >= ListTtl
    ensures FetchCommands(Put(store, ListKey, codec, raws, written), now, codec, response).requested == Some(IndexUrl)
  {
    PutThenLookup(store, ListKey, codec, raws, written, now, ListTtl);
  }

  /** An empty or unreadable list entry behaves exactly like no entry at all. */
  lemma UnreadableListEntryIgnored(store: Store, now: int, codec: Codec<seq<RawCommand>>,
                                   response: Response<Option<seq<RawCommand>>>)
    requires ListKey in store && (store[ListKey] == "" || codec.decode(store[ListKey]).None?)
    ensures var f := FetchCommands(store, now, codec, response);
            var g := FetchCommands(store - {ListKey}, now, codec, response);
            f.result == g.result && f.requested == g.requested
  {
  }

  /** A page fetched from the network is served from the cache by any later fetch younger than thirty days. */
  lemma DetailServedFromCache(store: Store, now: int, later: int, name: string,
                              codec: Codec<CommandDetail>, response: Response<string>,
                              again: Response<string>)
    requires Faithful(codec)
    requires FetchCommandDetail(store, now, name, codec, response).requested.Some?
    requires FetchCommandDetail(store, now, name, codec, response).result.Success?
    requires later - now < DetailTtl
    ensures var first := FetchCommandDetail(store, now, name, codec, response);
            FetchCommandDetail(first.store, later, name, codec, again) == Fetched(first.result, first.store, None)
  {
    var first := FetchCommandDetail(store, now, name, codec, response);
    PutThenLookup(store, DetailKey(name), codec, first.result.value, now, later, DetailTtl);
  }

  /** A page entry exactly thirty days old, or older, is no longer used: the page is requested again. */
  lemma DetailExpires(store: Store, name: string, detail: CommandDetail, written: int, now: int,
                      codec: Codec<CommandDetail>, response: Response<string>)
    requires Faithful(codec)
    requires now - written >= DetailTtl
    ensures FetchCommandDetail(Put(store, DetailKey(name), codec, detail, written), now, name, codec, response).requested
         == Some(DetailUrl(name))
  {
    PutThenLookup(store, DetailKey(name), codec, detail, written, now, DetailTtl);
  }

  /** An empty or unreadable page entry behaves exactly like no entry at all. */
  lemma UnreadableDetailEntryIgnored(store: Store, now: int, name: string,
                                     codec: Codec<CommandDetail>, response: Response<string>)
    requires DetailKey(name) in store
    requires store[DetailKey(name)] == "" || codec.decode(store[DetailKey(name)]).None?
    ensures var f := FetchCommandDetail(store, now, name, codec, response);
            var g := FetchCommandDetail(store - {DetailKey(name)}, now, name, codec, response);
            f.result == g.result && f.requested == g.requested
  {
  }

  /** The page requested for a catalogue entry is the address the entry advertises. */
  lemma DetailRequestMatchesCatalogue(raw: RawCommand, store: Store, now: int,
                                      codec: Codec<CommandDetail>, response: Response<string>)
    ensures var f := FetchCommandDetail(store, now, raw.n, codec, response);
            f.requested.Some? ==> f.requested.value == TransformCommand(raw).detailUrl
  {
  }

  /** A page fetch never disturbs the list entry, and a list fetch never disturbs a page entry. */
  lemma FetchersUseSeparateKeys(store: Store, now: int, later: int, name: string,
                                listCodec: Codec<seq<RawCommand>>, detailCodec: Codec<CommandDetail>,
                                listResponse: Response<Option<seq<RawCommand>>>,
                                detailResponse: Response<string>)
    ensures Lookup(FetchCommandDetail(store, now, name, detailCodec, detailResponse).store, ListKey, later, ListTtl, listCodec)
         == Lookup(store, ListKey, later, ListTtl, listCodec)
    ensures Lookup(FetchCommands(store, now, listCodec, listResponse).store, DetailKey(name), later, DetailTtl, detailCodec)
         == Lookup(store, DetailKey(name), later, DetailTtl, detailCodec)
  {
    DetailKeyIsNotListKey(name);
  }

  /** After the intended clearing, both fetchers go to the network. */
  lemma ClearAllForcesRequests(store: Store, now: int, name: string,
                               listCodec: Codec<seq<RawCommand>>, detailCodec: Codec<CommandDetail>,
                               listResponse: Response<Option<seq<RawCommand>>>,
                               detailResponse: Response<string>)
    ensures FetchCommands(ClearAll(store), now, listCodec, listResponse).requested == Some(IndexUrl)
    ensures FetchCommandDetail(ClearAll(store), now, name, detailCodec, detailResponse).requested
         == Some(DetailUrl(name))
  {
    ClearAllMisses(store, name, now, listCodec, detailCodec);
  }

  /**
   * As written, clearing leaves a fresh page entry in place whenever no
   * enumerated name carries the detail prefix: the next fetch of that page is
   * still answered from the cache.
   */
  lemma ClearCacheStillServesDetail(store: Store, enumerated: seq<string>, now: int, name: string,
                                    codec: Codec<CommandDetail>, response: Response<string>)
    requires forall i :: 0 <= i < |enumerated| ==> !StartsWith(enumerated[i], DetailKeyPrefix)
    requires Lookup(store, DetailKey(name), now, DetailTtl, codec).Some?
    ensures FetchCommandDetail(ClearCache(store, enumerated), now, name, codec, response).requested == None
  {
    ClearCacheKeepsDetails(store, enumerated, name, now, codec);
  }
}
