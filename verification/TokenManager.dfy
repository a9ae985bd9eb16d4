/**
 The classes CacheLoader and TokenManager: each method is one synchronous stretch of the
 JavaScript and is proved to be the corresponding step of TokenSteps.
 */
module TokenManager {
  import opened TokenSteps

  class CacheLoader {
    var cache: map<Network, Record>
    var loading: map<Network, nat>
    var calls: seq<Call>              // the promises of loadFn, in the order it was called

    constructor ()
      ensures cache == map[] && loading == map[] && calls == []
    {
      cache, loading, calls := map[], map[], [];
    }

    /** The loader's part of the state; the refusals belong to the TokenManager. */
    function View(now: int): State
      reads this
    {
      State(now, cache, loading, map[], calls)
    }

    method Get(key: Network, now: int) returns (a: Answer)
      modifies this
      ensures (View(now), a) ==
        if key in old(cache) && IsValid(old(cache)[key], now) then (old(View(now)), Now(old(cache)[key].token))
        else TokenSteps.Load(old(View(now)), key)
    {
      if key !in cache {
        a := Load(key, now);
        return;
      }
      var val := cache[key];
      if IsValid(val, now) {
        return Now(val.token);
      }
      a := Load(key, now);
    }

    /** Up to the await. */
    method Load(key: Network, now: int) returns (a: Answer)
      modifies this`loading, this`calls
      ensures (View(now), a) == TokenSteps.Load(old(View(now)), key)
    {
      if key in loading {
        return Joined(loading[key]);
      }
      var valPromise := |calls|;
      calls := calls + [Call(key, now, Waiting)];  // loadFn: the request is sent
      loading := loading[key := valPromise];
      return Started(valPromise);
    }

    /** From the await on. */
    method FinishLoad(k: nat, now: int)
      requires Enabled(View(now), ResumeLoad(k))
      modifies this
      ensures View(now) == Loaded(old(View(now)), k)
    {
      var key, outcome, at := calls[k].network, calls[k].phase.outcome, calls[k].phase.at;
      var result := outcome;
      if outcome.Value? {
        if IsValid(outcome.record, now) {
          cache := cache[key := outcome.record];
        } else {
          result := Rejected;
        }
      }
      loading := loading - {key};  // finally
      calls := calls[k := calls[k].(phase := Finished(outcome, at, result, now))];
    }
  }

  class TokenManager {
    const cacheLoader: CacheLoader
    var unsupportedNetworks: map<Network, int>

    constructor ()
      ensures View(0) == FRESH && fresh(cacheLoader)
    {
      cacheLoader := new CacheLoader();
      unsupportedNetworks := map[];
    }

    function View(now: int): State
      reads this, cacheLoader
    {
      cacheLoader.View(now).(unsupported := unsupportedNetworks)
    }

    method Get(network: Network, now: int) returns (a: Answer)
      modifies cacheLoader
      ensures (View(now), a) == TokenSteps.Get(old(View(now)), network)
    {
      if network in unsupportedNetworks {
        if now - unsupportedNetworks[network] < UNSUPPORTED_TTL {
          return No;
        }
      }
      a := cacheLoader.Get(network, now);
    }

    /** The message event of a network's connection: every listener still attached looks at it. */
    method OnMessage(network: Network, message: Message, now: int)
      modifies cacheLoader
      ensures View(now) == Next(old(View(now)), Receive(network, message))
    {
      var calls := cacheLoader.calls;
      for k := 0 to |calls|
        invariant |cacheLoader.calls| == |calls|
        invariant forall j :: 0 <= j < k ==> cacheLoader.calls[j] == Heard(calls[j], network, message)
        invariant forall j :: k <= j < |calls| ==> cacheLoader.calls[j] == calls[j]
        invariant View(now) == old(View(now)).(calls := cacheLoader.calls)
      {
        if calls[k].network == network && calls[k].phase == Waiting {
          var reply := Classify(message);
          if reply.Some? {
            cacheLoader.calls := cacheLoader.calls[k := calls[k].(phase := Answered(reply.value))];
          }
        }
      }
      assert cacheLoader.calls == Next(old(View(now)), Receive(network, message)).calls;
    }

    /** requestToken from its await on. */
    method FinishRequest(k: nat, now: int)
      requires Enabled(View(now), ResumeRequest(k))
      modifies this, cacheLoader
      ensures View(now) == Requested(old(View(now)), k)
    {
      var calls := cacheLoader.calls;
      var outcome;
      match calls[k].phase.reply {
        case TokenReply(token) => outcome := Value(Record(token, now));
        case CommandUnknown =>
          unsupportedNetworks := unsupportedNetworks[calls[k].network := now];
          outcome := Unsupported;
        case Lost => outcome := Rejected;
      }
      cacheLoader.calls := calls[k := calls[k].(phase := Settled(outcome, now))];
    }
  }
}
