/** `Client`: the memcached client. It owns a connection pool (absent when
    construction failed), its configuration and the server list it pushed to
    the library; every request pops a connection (`server.available`), talks
    to the server oracle through it, and records what it sent. */
module Cache {
  import opened Basics
  import opened Parsing
  import opened SmartRouting
  import opened Compression
  import opened CacheConfig
  import opened CacheSpec

  class Client {
    /** `m_pool` */
    var pool: Option<Pool>
    /** `m_config` */
    var config: Config
    /** The server list built from the descriptors. */
    var servers: seq<ServerDescriptor>
    /** The pool behaviours set through `memcached_pool_behavior_set`. */
    var behaviors: map<Behavior, uint64>

    /** A pool, when there is one, is sized by the configuration. */
    ghost predicate Valid()
      reads this
    {
      pool.Some? ==> pool.value == PoolOfSize(config.poolSize)
    }

    /** A request gets a connection: there is a pool and it hands one out. */
    predicate Connected(server: Server)
      reads this
    {
      pool.Some? && server.available
    }

    /** `Client(servers, routing)`. `created` is whether `memcached_create`
        succeeded, `net` the interface table and resolver consulted by routing,
        `pushed` what `memcached_server_push` returns, and `pooled` whether
        `memcached_pool_create` returns a pool (its result is not checked). The
        pool exists iff the structure was created, some server was configured,
        the push succeeded and the pool was created. */
    constructor(descriptors: seq<string>, routing: bool, net: Network, created: bool, pushed: ReturnCode, pooled: bool)
      ensures Valid()
      ensures config == DefaultConfig && behaviors == map[]
      ensures servers == if created then ServerList(descriptors, routing, net) else []
      ensures pool.Some? <==> created && servers != [] && pushed == Success && pooled
    {
      config := DefaultConfig;
      behaviors := map[];
      pool := None;
      var list: seq<ServerDescriptor> := [];
      if created {
        for i := 0 to |descriptors|
          invariant list == ServerList(descriptors[..i], routing, net)
        {
          assert descriptors[..i + 1][..i] == descriptors[..i];
          var host := Split(descriptors[i], ':');
          var local := true;
          if routing {
            var outcome := IsSameSubnet(net.interfaces, host[0], net.resolve(host[0]));
            if outcome.Raised? {
              continue;
            }
            local := outcome.isLocal;
          }
          if local {
            var port := if |host| == 2 then ToUint16(Atoi(host[1])) else DEFAULT_PORT;
            list := list + [ServerDescriptor(host[0], port)];
          }
        }
        assert descriptors[..|descriptors|] == descriptors;
      }
      servers := list;
      if created && |list| > 0 && pushed == Success && pooled {
        pool := Some(PoolOfSize(DefaultConfig.poolSize));
      }
    }

    /** `configure(options)`: without a pool nothing happens; otherwise each
        option is forwarded to its behaviour or sets a local field, and a new
        pool size recreates the pool. `recreated` is whether that
        `memcached_pool_create` returns a pool; when it does not, the client
        has no pool from then on and the behaviours named later are not set.
        The options are taken in any order. */
    method Configure(options: map<string, uint64>, recreated: bool)
      requires Valid()
      modifies this
      ensures Valid()
      ensures servers == old(servers)
      ensures pool.Some? <==> old(pool).Some? && ("pool-size" in options ==> recreated)
      ensures old(pool).None? ==> config == old(config) && behaviors == old(behaviors)
      ensures old(pool).Some? ==> config == Configured(old(config), options)
      ensures pool.Some? ==> Forwarded(old(behaviors), options, behaviors)
      ensures Kept(old(behaviors), options, behaviors)
    {
      if pool.None? {
        return;
      }
      ghost var seen: map<string, uint64> := map[];
      var todo := options.Keys;
      while todo != {}
        invariant todo <= options.Keys
        invariant seen.Keys == options.Keys - todo
        invariant forall k | k in seen :: seen[k] == options[k]
        invariant Valid() && servers == old(servers)
        invariant pool.Some? <==> ("pool-size" in seen ==> recreated)
        invariant config == Configured(old(config), seen)
        invariant pool.Some? ==> Forwarded(old(behaviors), seen, behaviors)
        invariant Kept(old(behaviors), seen, behaviors)
        decreases |todo|
      {
        var name :| name in todo;
        var value := options[name];
        ConfiguredStep(old(config), seen, name, value);
        KeptStep(old(behaviors), seen, behaviors, name, value);
        if pool.Some? {
          ForwardedStep(old(behaviors), seen, behaviors, name, value);
        }
        ApplyOption(name, value, recreated);
        todo := todo - {name};
        seen := seen[name := value];
      }
      assert seen == options;
    }

    /** The body of the `configure` loop: one option forwarded to its
        behaviour (which takes effect only while there is a pool), or stored
        in its local field (a new pool size recreating the pool from the one
        destroyed, which fails unless `recreated` and there was one), or
        skipped. */
    method ApplyOption(name: string, value: uint64, recreated: bool)
      requires Valid()
      modifies this
      ensures Valid() && servers == old(servers)
      ensures config == SetOption(old(config), name, value)
      ensures pool.Some? <==> old(pool).Some? && (name == "pool-size" ==> recreated)
      ensures behaviors == match BehaviorNamed(name)
                           case Some(b) => if old(pool).Some? then old(behaviors)[b := value] else old(behaviors)
                           case None => old(behaviors)
    {
      match Classify(name) {
        case Forward(b) =>
          if pool.Some? {
            behaviors := behaviors[b := value];
          }
        case PoolSize =>
          config := config.(poolSize := ToUint32(value));
          pool := if recreated && pool.Some? then Some(PoolOfSize(config.poolSize)) else None;
        case PoolBlocking =>
          config := config.(poolBlocking := value != 0);
        case CompressionThreshold =>
          config := config.(compressionThreshold := ToUint32(value));
        case Unknown =>
      }
    }

    /** `get(key)`: empty without a connection or for an empty key; otherwise
        the server's reply read back through a fresh decompressor. */
    method Get(key: string, server: Server, codec: Codec) returns (value: Bytes)
      requires codec.Valid()
      ensures !Connected(server) || key == [] ==> value == []
      ensures Connected(server) && key != [] ==> value == ReadBack(server.get(key), codec)
    {
      var inflate := new Decompressor();
      value := [];
      if !Connected(server) || key == [] {
        return;
      }
      var reply := server.get(key);
      if reply.code != Success {
        return;
      }
      if reply.flags != 0 {
        var ok := inflate.Decompress(reply.value, reply.flags, codec);
        if ok {
          value := inflate.Data()[..inflate.Length()];
        }
      } else {
        value := reply.value;
      }
    }

    /** `get_multi(keys)`: the non-empty keys are requested together; when the
        request succeeds, the replies are fetched until the first that stops
        the loop, each inflated through one decompressor reused across
        replies, and the first value for each key is kept. */
    method GetMulti(keys: seq<string>, server: Server, codec: Codec) returns (result: map<string, Bytes>)
      requires codec.Valid()
      requires Connected(server) ==> NonEmptyKeys(keys) != []
      ensures !Connected(server) || server.mget(NonEmptyKeys(keys)) != Success ==> result == map[]
      ensures Connected(server) && server.mget(NonEmptyKeys(keys)) == Success ==>
                result == Collect(server.fetch(NonEmptyKeys(keys)), codec, 0, map[])
    {
      result := map[];
      var inflate := new Decompressor();
      if !Connected(server) {
        return;
      }
      var sent: seq<string> := [];
      for i := 0 to |keys|
        invariant sent == NonEmptyKeys(keys[..i])
      {
        assert keys[..i + 1][..i] == keys[..i];
        if keys[i] == [] {
          continue;
        }
        sent := sent + [keys[i]];
      }
      assert keys[..|keys|] == keys;
      if server.mget(sent) != Success {
        return;
      }
      var replies := server.fetch(sent);
      var i := 0;
      while i < |replies| && !Stops(replies[i])
        invariant 0 <= i <= |replies|
        invariant fresh(inflate) && inflate.Valid()
        invariant Collect(replies, codec, 0, map[]) == Collect(replies[i..], codec, inflate.bufferLength, result)
        decreases |replies| - i
      {
        var r := replies[i].result.value;
        assert replies[i..][1..] == replies[i + 1..];
        if r.flags != 0 {
          var ok := inflate.Decompress(r.value, r.flags, codec);
          if ok {
            result := Insert(result, r.key, inflate.Data()[..inflate.Length()]);
          }
        } else {
          result := Insert(result, r.key, r.value);
        }
        i := i + 1;
      }
    }

    /** `store(store_fn, cache_map, expire)`: every entry with a non-empty key
        and value is sent once through `mode`, compressed when that pays; the
        entries whose call returned SUCCESS are erased from the caller's map,
        which is returned as `leftover`. */
    method StoreMulti(mode: StoreMode, m: map<string, Bytes>, expire: int, server: Server, codec: Codec)
      returns (leftover: map<string, Bytes>, calls: seq<StoreCall>)
      requires codec.Valid()
      ensures BulkStoreDone(mode, m, expire, config.compressionThreshold, codec, server, Connected(server), leftover, calls)
    {
      leftover, calls := m, [];
      var deflate := new Compressor();
      if !Connected(server) {
        return;
      }
      var threshold := config.compressionThreshold;
      var todo := m.Keys;
      StoreLoopBounds(mode, m, expire, threshold, codec, server, leftover, calls);
      while todo != {}
        invariant fresh(deflate) && deflate.Valid()
        invariant StoreLoopInv(mode, m, expire, threshold, codec, server, todo, leftover, calls)
        decreases |todo|
      {
        var k :| k in todo;
        if k == [] || m[k] == [] {
          StoreLoopSkip(mode, m, expire, threshold, codec, server, todo, leftover, calls, k);
          todo := todo - {k};
          continue;
        }
        var call := PrepareCall(mode, k, m[k], expire, threshold, deflate, codec);
        StoreLoopSend(mode, m, expire, threshold, codec, server, todo, leftover, calls, call);
        calls := calls + [call];
        if server.store(call) == Success {
          leftover := leftover - {k};
        }
        todo := todo - {k};
      }
      StoreLoopBounds(mode, m, expire, threshold, codec, server, leftover, calls);
    }

    /** The call the store loop makes for one entry: the value goes through
        the compressor when it is longer than the threshold, and the compressed
        form is sent (flagged with the original length) only when it is
        strictly shorter; a zero expiry becomes 120 seconds plus a random
        number below 60. */
    method PrepareCall(mode: StoreMode, key: string, value: Bytes, expire: int, threshold: uint32,
                       deflate: Compressor, codec: Codec) returns (call: StoreCall)
      requires deflate.Valid() && codec.Valid()
      modifies deflate
      ensures deflate.Valid()
      ensures |value| > threshold ==>
                && deflate.bufferLength == Max(old(deflate.bufferLength), WorstCase(|value|))
                && deflate.resultLength == |codec.compress(value)|
                && deflate.Data()[..deflate.Length()] == codec.compress(value)
      ensures |value| <= threshold ==>
                && deflate.bufferLength == old(deflate.bufferLength)
                && deflate.buffer == old(deflate.buffer)
                && deflate.resultLength == old(deflate.resultLength)
      ensures call.mode == mode && call.key == key
      ensures Frame(call.payload, call.flags) == FrameOf(value, threshold, codec)
      ensures ExpiryChosen(expire, call.expiry)
    {
      var compressed := false;
      if |value| > threshold {
        compressed := deflate.Compress(value, codec);
      }
      var payload := if compressed then deflate.Data()[..deflate.Length()] else value;
      var flags := if compressed then ToUint32(|value|) else 0;
      var expiry: int;
      if expire != 0 {
        expiry := expire;
      } else {
        var jitter :| 0 <= jitter < 60;
        expiry := jitter + 120;
      }
      call := StoreCall(mode, key, payload, expiry, flags);
    }

    /** `store(store_fn, key, value, expire)`: a one-entry bulk store; true iff
        the entry was stored. */
    method Store(mode: StoreMode, key: string, value: Bytes, expire: int, server: Server, codec: Codec)
      returns (stored: bool, calls: seq<StoreCall>)
      requires codec.Valid()
      ensures SingleStoreDone(mode, key, value, expire, config.compressionThreshold, codec, server, Connected(server), stored, calls)
    {
      if key == [] || value == [] {
        return false, [];
      }
      var leftover;
      leftover, calls := StoreMulti(mode, map[key := value], expire, server, codec);
      stored := leftover == map[];
      if Connected(server) {
        SingleEntryOneCall(mode, key, value, expire, config.compressionThreshold, codec, server, leftover, calls);
      } else {
        assert key in leftover;
      }
    }

    /** `set(key, value, expire)` */
    method Set(key: string, value: Bytes, expire: int, server: Server, codec: Codec) returns (stored: bool, calls: seq<StoreCall>)
      requires codec.Valid()
      ensures SingleStoreDone(StoreMode.Set, key, value, expire, config.compressionThreshold, codec, server, Connected(server), stored, calls)
    {
      stored, calls := Store(StoreMode.Set, key, value, expire, server, codec);
    }

    /** `add(key, value, expire)` */
    method Add(key: string, value: Bytes, expire: int, server: Server, codec: Codec) returns (stored: bool, calls: seq<StoreCall>)
      requires codec.Valid()
      ensures SingleStoreDone(StoreMode.Add, key, value, expire, config.compressionThreshold, codec, server, Connected(server), stored, calls)
    {
      stored, calls := Store(StoreMode.Add, key, value, expire, server, codec);
    }

    /** `replace(key, value, expire)` */
    method Replace(key: string, value: Bytes, expire: int, server: Server, codec: Codec) returns (stored: bool, calls: seq<StoreCall>)
      requires codec.Valid()
      ensures SingleStoreDone(StoreMode.Replace, key, value, expire, config.compressionThreshold, codec, server, Connected(server), stored, calls)
    {
      stored, calls := Store(StoreMode.Replace, key, value, expire, server, codec);
    }

    /** `set_multi(cache_map, expire)` */
    method SetMulti(m: map<string, Bytes>, expire: int, server: Server, codec: Codec)
      returns (leftover: map<string, Bytes>, calls: seq<StoreCall>)
      requires codec.Valid()
      ensures BulkStoreDone(StoreMode.Set, m, expire, config.compressionThreshold, codec, server, Connected(server), leftover, calls)
    {
      leftover, calls := StoreMulti(StoreMode.Set, m, expire, server, codec);
    }

    /** `add_multi(cache_map, expire)` */
    method AddMulti(m: map<string, Bytes>, expire: int, server: Server, codec: Codec)
      returns (leftover: map<string, Bytes>, calls: seq<StoreCall>)
      requires codec.Valid()
      ensures BulkStoreDone(StoreMode.Add, m, expire, config.compressionThreshold, codec, server, Connected(server), leftover, calls)
    {
      leftover, calls := StoreMulti(StoreMode.Add, m, expire, server, codec);
    }

    /** `replace_multi(cache_map, expire)` */
    method ReplaceMulti(m: map<string, Bytes>, expire: int, server: Server, codec: Codec)
      returns (leftover: map<string, Bytes>, calls: seq<StoreCall>)
      requires codec.Valid()
      ensures BulkStoreDone(StoreMode.Replace, m, expire, config.compressionThreshold, codec, server, Connected(server), leftover, calls)
    {
      leftover, calls := StoreMulti(StoreMode.Replace, m, expire, server, codec);
    }

    /** `remove_multi(cache_vector)`, with the empty-key skip it intends: each
        non-empty key is deleted once, in order, and erased from the caller's
        vector when the delete returns SUCCESS. */
    method RemoveMulti(keys: seq<string>, server: Server) returns (leftover: seq<string>, sent: seq<string>)
      ensures !Connected(server) ==> leftover == keys && sent == []
      ensures Connected(server) ==> leftover == Pending(keys, server) && sent == NonEmptyKeys(keys)
    {
      leftover, sent := keys, [];
      if !Connected(server) {
        return;
      }
      var i := 0;
      ghost var n := 0;
      RemoveLoopBounds(keys, server, n, i, leftover, sent);
      while i < |leftover|
        invariant RemoveLoopInv(keys, server, n, i, leftover, sent)
        decreases |leftover| - i
      {
        RemoveLoopStep(keys, server, n, i, leftover, sent);
        if leftover[i] == [] {
          i := i + 1;
        } else {
          var rc := server.delete(leftover[i]);
          sent := sent + [leftover[i]];
          if rc == Success {
            leftover := leftover[..i] + leftover[i + 1..];
          } else {
            i := i + 1;
          }
        }
        n := n + 1;
      }
      RemoveLoopBounds(keys, server, n, i, leftover, sent);
    }

    /** `remove(key)`: a one-key bulk delete; true iff the key was deleted. */
    method Remove(key: string, server: Server) returns (removed: bool, sent: seq<string>)
      ensures removed <==> key != [] && Connected(server) && server.delete(key) == Success
      ensures sent == if key != [] && Connected(server) then [key] else []
    {
      if key == [] {
        return false, [];
      }
      var leftover;
      leftover, sent := RemoveMulti([key], server);
      assert [key][..0] == [];
      removed := leftover == [];
    }

    /** `flush()`: one flush request when there is a connection; its code is
        only logged. */
    method Flush(server: Server) returns (sent: bool)
      ensures sent <==> Connected(server)
    {
      sent := Connected(server);
    }
  }
}
