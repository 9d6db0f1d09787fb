/** The declarations of the client's header: its configuration record, the
    three store primitives, and key composition. */
module CacheConfig {
  import opened Basics
  import opened Parsing

  /** `Config`: pool size and blocking mode, and the compression threshold. */
  datatype Config = Config(poolSize: uint32, poolBlocking: bool, compressionThreshold: uint32)

  /** `Config()`: a pool of five non-blocking connections, compression disabled
      by the largest possible threshold. */
  const DefaultConfig: Config := Config(5, false, UINT32_MAX)

  /** The write primitive a store forwards to: `memcached_set`, `memcached_add`
      or `memcached_replace`. */
  datatype StoreMode = Set | Add | Replace

  /** `compose_key(prefix, key)` for a key that streams as text: the prefix, a
      colon and the key. */
  function ComposeKey(prefix: string, key: string): (r: string)
    ensures |r| == |prefix| + 1 + |key|
    ensures r[..|prefix|] == prefix && r[|prefix|] == ':' && r[|prefix| + 1..] == key
  {
    prefix + [':'] + key
  }

  /** `compose_key(prefix, key)` for an integer key, which the stream writes in
      decimal. */
  function ComposeIntKey(prefix: string, key: int): (r: string)
    ensures |r| > |prefix| + 1 && r[..|prefix|] == prefix && r[|prefix|] == ':'
    ensures Atoi(r[|prefix| + 1..]) == key
  {
    AtoiIntText(key);
    ComposeKey(prefix, IntText(key))
  }

  /** Within one colon-free prefix namespace, composed keys are distinct for
      distinct keys, and a composed key determines its prefix. */
  lemma ComposeKeyInjective(p1: string, k1: string, p2: string, k2: string)
    requires ':' !in p1 && ':' !in p2
    requires ComposeKey(p1, k1) == ComposeKey(p2, k2)
    ensures p1 == p2 && k1 == k2
  {
  }

  /** An integer key can be read back from its composed form. */
  lemma ComposeIntKeyRoundTrip(prefix: string, key: int)
    requires ':' !in prefix
    ensures var r := ComposeIntKey(prefix, key);
            Split(r, ':')[0] == prefix && Atoi(r[|prefix| + 1..]) == key
  {
    var text := IntText(key);
    SplitAfterPrefix(prefix, ':', text);
    AtoiIntText(key);
  }
}
