# lymc client core, modelled in Dafny

lymc is a C++ client for memcached. Its `Client` object:

- is built from `"host[:port]"` descriptors;
- keeps only the servers on a local subnet when smart routing is on;
- pushes them into libmemcached and creates a connection pool;
- after that, serves `get`, `get_multi`, single and bulk `set`/`add`/`replace`, `remove`, `remove_multi`, `flush` and `configure`.

Values longer than a configurable threshold are LZO-compressed when that makes them shorter. The original length travels in the 32-bit flags word, and it tells the reader how far to inflate. Bulk operations take the caller's map or vector and erase what succeeded, so the caller is left holding the failures.

The model has one module per concern:

- `Basics`: bytes, fixed-width unsigned types with explicit narrowing, `Option`.
- `Parsing`: `boost::split` on one separator, C `atoi`, and the decimal text a stream writes.
- `SmartRouting`: the subnet predicate and the `find_if` searches that `is_same_subnet` is built from. The interface table and the resolver's answer are inputs.
- `Compression`: the `compressor<lzo>` and `decompressor<lzo>` classes with their growable buffers. The LZO routines themselves are a `Codec` value.
- `Wrap`: the owning pointer holder `wrap<T>`. A ghost record of each destructor's calls shows that nothing is destroyed twice through the same destructor record.
- `CacheConfig`: the `Config` defaults, the store primitives and `compose_key`.
- `CacheSpec`: the client's decisions as functions:
  - descriptor parsing and filtering;
  - the `configure` dispatch;
  - framing of stored values;
  - reading back;
  - the multi-get collection;
  - which keys a bulk delete leaves behind.

  It also holds the lemmas about those functions.
- `Cache`: the `Client` class. Its fields are the pool (present or absent), the configuration, the server list built from the descriptors and the behaviours set on the pool. Its loops are proved against `CacheSpec`.

libmemcached is an oracle, the `Server` datatype:

- whether the pool hands out a connection;
- what `get`, `mget`, each `fetch`, each store call and each delete return;
- whether each `memcached_pool_create` returns a pool (a parameter of the constructor and of `configure`).

A reply depends only on the request. Operations return what they sent (the store calls, the deleted keys) next to their results. This is so their contracts can say which requests went out.

A key whose delete returns NOTFOUND is not erased (src/cache.cpp:328-333); it stays in the caller's vector (`CacheSpec.Pending`, `CacheSpec.PendingMembers`).

## Model

| member | source | states |
|---|---|---|
| Basics.ToUint32 | include/cache.hpp:27-32 | narrowing to the 32-bit `Config` fields and flags word keeps the residue modulo 2^32, and is the identity on values that fit |
| Basics.ToUint16 | src/cache.cpp:60-63 | the port passed as `in_port_t` keeps its residue modulo 2^16, and is unchanged when it fits |
| Parsing.Split | src/cache.cpp:46 | `boost::split` on ':' yields at least one part, and no part contains the separator |
| Parsing.JoinSplit | src/cache.cpp:46 | splitting loses nothing: joining the parts with the separator gives back the descriptor |
| Parsing.SplitCount | src/cache.cpp:46 | there is exactly one more part than there are separators |
| Parsing.SplitNoSeparator | src/cache.cpp:46 | a text without ':' is a single part |
| Parsing.SplitAfterPrefix | src/cache.cpp:46 | a colon-free prefix followed by ':' becomes the first part, and the rest splits on its own |
| Parsing.Atoi | src/cache.cpp:61 | `atoi` gives a negative number only after a minus sign, and 0 for a text that is blank or starts with anything other than a sign or a digit |
| Parsing.DigitPrefixLength | src/cache.cpp:61 | the run of digits `atoi` reads is the longest digit prefix |
| Parsing.NatText | include/cache.hpp:87 | the decimal text a stream writes for a natural number is non-empty, all digits, and has no leading zero |
| Parsing.NatTextValue | include/cache.hpp:87 | the decimal text of n denotes n |
| Parsing.AtoiIntText | src/cache.cpp:61 | `atoi` reads back the decimal text a stream writes for any integer, sign included |
| SmartRouting.SameSubnetAddress | src/smartrouting.cpp:67-69 | two addresses are on the interface's subnet iff they differ in no bit of its mask |
| SmartRouting.FindAddress | src/smartrouting.cpp:71-78 | `find_if` over the addresses returns the first address on the interface's subnet, or the end position when there is none |
| SmartRouting.SameSubnetInterface | src/smartrouting.cpp:71-78 | true iff some address of the endpoint matches the interface under its mask |
| SmartRouting.FindInterface | src/smartrouting.cpp:80-87 | `find_if` over the interfaces returns the first interface sharing a subnet with the endpoint, or the end position |
| SmartRouting.SameSubnetImpl | src/smartrouting.cpp:80-87 | true iff some interface and some address exist with `(ifaddr & mask) == (addr & mask)` |
| SmartRouting.IsSameSubnet | src/smartrouting.cpp:90-97 | a failed resolution raises with the message "Can't resolve hostname: " plus the host and never returns false; otherwise local iff some interface/address pair matches |
| SmartRouting.NothingMatchesEmpty | src/smartrouting.cpp:72-86 | no interfaces, or no addresses, gives false |
| SmartRouting.ZeroMaskMatchesAll | src/smartrouting.cpp:67-69 | an interface with mask 0 matches every address |
| SmartRouting.OwnAddressMatches | src/smartrouting.cpp:67-69 | an interface matches its own address |
| SmartRouting.AppendKeepsLocal | src/smartrouting.cpp:80-87 | appending interfaces or addresses never turns a local host remote |
| SmartRouting.OrderIrrelevant | src/smartrouting.cpp:80-87 | the result is the same for any rearrangement of the interfaces and of the addresses |
| SmartRouting.SubnetExample | src/smartrouting.cpp:67-69 | with 10.0.0.5/24, 10.0.0.77 is local and 10.0.1.77 is not |
| Compression.WorstCase | include/compression.hpp:25 | the worst-case room for n input bytes holds the whole input and at least 67 bytes more, the excess growing by at most one byte per 16 input bytes |
| Compression.Grown | include/compression.hpp:27-30 | a reallocated buffer is as long as the larger of its old length and the request, and keeps its old contents in front |
| Compression.Compressor.constructor | include/compression.hpp:13-16 | a fresh compressor has an empty buffer, buffer length 0 and result length 0 |
| Compression.Compressor.Compress | include/compression.hpp:22-36 | the buffer length becomes the max of its old value and the worst case, so it never shrinks; the buffer's front holds exactly the codec's output; the result is true iff that output is strictly shorter than the input |
| Compression.Compressor.Data | include/compression.hpp:38-40 | `data()` has exactly the allocated buffer length |
| Compression.Compressor.Length | include/compression.hpp:42-44 | `length()` is the last result length, within the buffer |
| Compression.Decompressor.constructor | include/compression.hpp:53-56 | a fresh decompressor has an empty buffer, buffer length 0 and result length 0 |
| Compression.Decompressor.Decompress | include/compression.hpp:62-74 | the buffer length becomes the max of its old value and the expansion length; the whole buffer is offered as capacity; the result length and the buffer's front are what the routine wrote; true iff it reported `LZO_E_OK` |
| Compression.Decompressor.Data | include/compression.hpp:76-78 | `data()` has exactly the allocated buffer length |
| Compression.Decompressor.Length | include/compression.hpp:80-82 | `length()` is the last result length, within the buffer |
| Wrap.Wrap.constructor | include/wrap.hpp:18-20 | the holder takes the pointer and the destructor and destroys nothing |
| Wrap.Wrap.Destroy | include/wrap.hpp:55-59 | the destructor runs exactly once on the held pointer iff it is non-null, and no object is ever destroyed twice through the same destructor record |
| Wrap.Wrap.Dispose | include/wrap.hpp:22-24 | the holder's own destructor destroys what it holds |
| Wrap.Wrap.AssignPointer | include/wrap.hpp:26-29 | assigning a raw pointer first destroys the held object, then holds the new pointer |
| Wrap.Wrap.AssignFrom | include/wrap.hpp:31-34 | assigning from another holder destroys the held object, takes the other's pointer and leaves the other null; self-assignment is excluded |
| Wrap.Wrap.Deref | include/wrap.hpp:36-42 | `operator*` returns the held pointer, which is never an object already destroyed, and changes nothing |
| Wrap.Wrap.IsValid | include/wrap.hpp:44-46 | `valid()` iff the held pointer is non-null; in a valid holder, a true answer means the object is still alive |
| Wrap.Wrap.Release | include/wrap.hpp:48-52 | `release()` returns the held pointer, leaves the holder null and destroys nothing |
| Wrap.RefillFromLibrary | src/cache.cpp:217 | the fetch idiom (release, then assign what the library returns) destroys nothing, so a result record the library reuses is never freed |
| CacheConfig.ComposeKey | include/cache.hpp:83-89 | the composed key is the prefix, one ':' and the key, at those positions |
| CacheConfig.ComposeIntKey | include/cache.hpp:83-89 | an integer key composes to the prefix, ':' and at least one character, and `atoi` of the part after the colon is the key |
| CacheConfig.ComposeKeyInjective | include/cache.hpp:83-89 | for colon-free prefixes, a composed key determines its prefix and its key |
| CacheConfig.ComposeIntKeyRoundTrip | include/cache.hpp:83-89 | an integer key composed into text splits back into the prefix and `atoi` reads the integer back |
| CacheSpec.ParseDescriptor | src/cache.cpp:46-61 | the host is the first ':'-separated part, so it never contains a colon |
| CacheSpec.ParseDescriptorWithPort | src/cache.cpp:46-61 | "host:port" for a colon-free host parses back to that host and port |
| CacheSpec.ParseDescriptorDefaultPort | src/cache.cpp:46-61 | no colon, or more than one, gives port 11211 and the text before the first colon as host |
| CacheSpec.ParseDescriptorHostPrefix | src/cache.cpp:46-61 | the host is a prefix of the descriptor, followed by ':' unless it is all of it |
| CacheSpec.Admitted | src/cache.cpp:48-52 | routing off admits every host; with routing, an unresolvable host is skipped, and a resolved one is kept iff some interface/address pair matches |
| CacheSpec.ServerList | src/cache.cpp:44-67 | the constructor's loop configures at most one server per descriptor, each with a colon-free host that was admitted |
| CacheSpec.ServerListAppend | src/cache.cpp:44-67 | the list of a concatenation is the concatenation of the lists, so a skipped host affects no other descriptor |
| CacheSpec.ServerListMembers | src/cache.cpp:44-67 | a server is in the list iff some descriptor parses to it and its host is admitted |
| CacheSpec.ServerListWithoutRouting | src/cache.cpp:44-67 | with routing off, every descriptor is configured, in order |
| CacheSpec.NamedByName | src/cache.cpp:102-113 | the behaviour table finds every one of the eleven behaviours under its own option name |
| CacheSpec.NameOfNamed | src/cache.cpp:102-113 | a name the table finds is that behaviour's name, so the table is the inverse of the naming |
| CacheSpec.NamesDistinct | src/cache.cpp:102-113 | distinct behaviours have distinct option names |
| CacheSpec.LocalOptionsAreNotBehaviors | src/cache.cpp:118-130 | "pool-size", "pool-blocking" and "compression-threshold" are not in the behaviour table |
| CacheSpec.Classify | src/cache.cpp:118-133 | an option is forwarded iff the table names it, and each local setting is recognised by exactly its own name; anything else is skipped |
| CacheSpec.PoolOfSize | src/cache.cpp:83 | a pool of size s has min s/2 and max s |
| CacheSpec.DefaultPool | include/cache.hpp:35-42 | the default pool keeps 2 connections warm and allows at most 5; it does not block; the threshold is UINT32_MAX |
| CacheSpec.Configured | src/cache.cpp:118-130 | options naming no local setting leave the configuration as it was; a pool size or threshold is the option value modulo 2^32; blocking is on iff the value is nonzero |
| CacheSpec.ConfiguredTwice | src/cache.cpp:115-134 | two `configure` calls set the local fields as one call with both option maps, the later one winning |
| CacheSpec.ConfiguredStep | src/cache.cpp:118-133 | one option changes only its own local field, with the narrowed value; a behaviour or an unknown option leaves the configuration unchanged |
| CacheSpec.ForwardedStep | src/cache.cpp:118-121 | one option sets only its own behaviour, and only when it is in the table |
| CacheSpec.ForwardedKept | src/cache.cpp:115-134 | the full account of the behaviours implies the weaker one |
| CacheSpec.KeptStep | src/cache.cpp:118-121 | one more option, whether its behaviour is set or the pool is gone, keeps every behaviour either as it was or set from its option |
| CacheSpec.ForwardedUnique | src/cache.cpp:115-134 | the behaviours after `configure` are determined by those before it and its options |
| CacheSpec.UnknownOptionsIgnored | src/cache.cpp:131-133 | options that are neither behaviours nor local settings change nothing |
| CacheSpec.FrameOf | src/cache.cpp:279-287 | the bytes sent are never longer than the value; an uncompressed value goes out as it is with flags 0; a compressed one goes out as the codec's output, flagged with its length narrowed to 32 bits (congruent modulo 2^32, and equal when it fits) |
| CacheSpec.StoreLoopBounds | src/cache.cpp:273-295 | the store loop's invariant holds before any entry is visited, and at the end it gives the bulk store's contract |
| CacheSpec.StoreLoopSkip | src/cache.cpp:274-277 | an entry with an empty key or value is stepped over without a call |
| CacheSpec.StoreLoopSend | src/cache.cpp:279-294 | an eligible entry gets exactly one call and leaves the map iff the call returns SUCCESS |
| CacheSpec.CallLogGrows | src/cache.cpp:283-294 | one more call adds its key to the keys sent, and to the keys stored iff it returned SUCCESS |
| CacheSpec.LeftoverAreFailures | src/cache.cpp:273-295 | after a bulk store, an entry is still in the map iff it was skipped (empty key or value) or its store call failed, and every entry left is unchanged |
| CacheSpec.DistinctCallKeys | src/cache.cpp:273-295 | no key is sent twice, so there are exactly as many calls as keys sent |
| CacheSpec.SingleEntryOneCall | src/cache.cpp:248-257 | a one-entry store makes exactly one call, and the map ends empty iff that call returned SUCCESS |
| CacheSpec.DefaultNeverCompresses | include/cache.hpp:35-42 | under the default threshold (UINT32_MAX) no value up to UINT32_MAX bytes is compressed; it travels as it is with flags 0 |
| CacheSpec.IncompressibleStoredPlain | src/cache.cpp:279-287 | a value the compressor cannot shrink is sent as it is, flagged 0 |
| CacheSpec.ReadBack | src/cache.cpp:158-175 | a non-SUCCESS reply reads as empty; a reply flagged 0 reads as its raw value |
| CacheSpec.StoreThenReadBack | src/cache.cpp:279-287 | framing round-trips: what the store loop sends, `get` reads back as the original value, given a codec that inflates what it deflated and a length that fits the flags word |
| CacheSpec.Fetched | src/cache.cpp:216-224 | the fetch loop uses exactly the replies before the first non-SUCCESS code or null result |
| CacheSpec.Insert | src/cache.cpp:242 | `std::map::insert` adds a new key with its value and keeps an existing entry unchanged |
| CacheSpec.Collect | src/cache.cpp:216-243 | the fetch loop keeps every key already collected, with its value |
| CacheSpec.CollectStopsAtFirstStop | src/cache.cpp:216-224 | no reply after the first stopping one affects the result |
| CacheSpec.CollectKeys | src/cache.cpp:216-243 | every key in the `get_multi` result was returned by a reply the loop used, and nothing collected is lost |
| CacheSpec.CollectKeepsPlainValues | src/cache.cpp:229-242 | a key fetched uncompressed is in the result whatever happened to the replies around it, with its first fetched value |
| CacheSpec.CapacityAt | src/cache.cpp:229-236 | the capacity the shared decompressor offers a reply is at least the buffer length so far, and at least that reply's flags word when it is compressed |
| CacheSpec.CollectKeepsInflated | src/cache.cpp:229-242 | a key fetched compressed that decompresses with `LZO_E_OK` at the capacity the loop offers it is in the result whatever happened to the replies around it, with the decompressor's output when it is the key's first appearance |
| CacheSpec.CollectOmitsFailures | src/cache.cpp:229-236 | a key whose every reply is compressed and fails to decompress at the capacity the loop offers it is left out of the result |
| CacheSpec.NonEmptyKeys | src/cache.cpp:196-203 | the keys sent are non-empty, and each non-empty key is sent as often as it occurs in the input |
| CacheSpec.NonEmptyKeysAppend | src/cache.cpp:196-203 | the keys sent for a concatenation are those of each part, in order |
| CacheSpec.Pending | src/cache.cpp:321-335 | a bulk delete never lengthens the vector |
| CacheSpec.PendingCount | src/cache.cpp:321-335 | every copy of a key that is empty or whose delete did not return SUCCESS stays, and no copy of a deleted key does |
| CacheSpec.PendingAppend | src/cache.cpp:321-335 | the keys pending after a concatenation are those of each part, in order |
| CacheSpec.PendingMembers | src/cache.cpp:321-335 | after a bulk delete, a key is still pending iff it is in the input and is empty or its delete did not return SUCCESS (NOTFOUND included); no key gains copies |
| CacheSpec.RemoveLoopBounds | src/cache.cpp:321-335 | the remove loop's invariant holds at the start, and when the iterator reaches the end the vector holds exactly the pending keys |
| CacheSpec.RemoveLoopStep | src/cache.cpp:322-334 | each step visits the next input key: an empty key is stepped over, a deleted key is erased, any other key stays |
| CacheSpec.RemoveLoopAsWritten | src/cache.cpp:321-335 | the loop as written only adds to the keys it sent, sends only keys of the vector, and never lengthens the vector |
| CacheSpec.RemoveMultiAsWritten | src/cache.cpp:309-336 | `remove_multi` as written sends only keys of the input and never lengthens the vector |
| CacheSpec.RemoveLoopAsWrittenStep | src/cache.cpp:322-333 | at a non-empty key the loop as written deletes at the iterator's own position, then erases the key on SUCCESS or steps over it |
| CacheSpec.RemoveLoopAsWrittenAgrees | src/cache.cpp:321-335 | from any iterator position with no empty key ahead, the loop as written leaves the keys before it plus the pending rest, and sends every remaining key in order |
| CacheSpec.RemoveMultiAsWrittenAgrees | src/cache.cpp:309-336 | on a vector without empty keys, `remove_multi` as written leaves exactly the pending keys and deletes the keys the corrected loop deletes, so the discrepancy is confined to empty keys |
| CacheSpec.RemoveMultiAsWrittenMisbehaves | src/cache.cpp:322-326 | the loop as written dereferences the end for [""] and calls `memcached_delete` with an empty key for ["", ""] |
| Cache.Client.constructor | src/cache.cpp:16-84 | the configuration is the default and the server list is the descriptors parsed and filtered, in order; the pool exists iff the structure was created, some server survived, the push succeeded and `memcached_pool_create` returned a pool; the pool is always sized by the configuration |
| Cache.Client.Configure | src/cache.cpp:95-135 | without a pool nothing changes; otherwise the configuration is what the options determine, in any order; the pool survives unless a new pool size fails to create one; while it survives the behaviours are exactly those the options determine, and in every case each behaviour is as it was or set from its option; a pool has bounds size/2..size of the configured size |
| Cache.Client.ApplyOption | src/cache.cpp:118-133 | one option updates its local field, or its behaviour while there is a pool; "pool-size" recreates the pool at the new size from the one destroyed, and leaves none when there was none or creation fails |
| Cache.Client.Get | src/cache.cpp:137-176 | empty without a connection or for an empty key; otherwise the reply read back: empty unless SUCCESS, raw when flagged 0, else the decompressed bytes, empty on failure |
| Cache.Client.GetMulti | src/cache.cpp:178-246 | empty without a connection or when the multi-get fails; otherwise exactly the collection of the replies to the non-empty keys |
| Cache.Client.StoreMulti | src/cache.cpp:259-296 | without a connection nothing is sent and the map is unchanged; otherwise every eligible entry is sent once with its framing and expiry, and the map left is the input minus the entries stored |
| Cache.Client.PrepareCall | src/cache.cpp:279-287 | sent compressed iff longer than the threshold and the compressor shrank it; flags are the original length when compressed, else 0; the expiry is the given one when nonzero, else in [120, 180); the compressor is run exactly when the value exceeds the threshold, growing its buffer as `Compress` does and holding the codec's output, and is left untouched otherwise |
| Cache.Client.Store | src/cache.cpp:248-257 | false with no call for an empty key or value, or without a connection; otherwise one call, and true iff it returned SUCCESS |
| Cache.Client.Set | include/cache.hpp:55-57 | the single-item store with `memcached_set` |
| Cache.Client.Add | include/cache.hpp:63-65 | the single-item store with `memcached_add` |
| Cache.Client.Replace | include/cache.hpp:71-73 | the single-item store with `memcached_replace` |
| Cache.Client.SetMulti | include/cache.hpp:59-61 | the bulk store with `memcached_set`, the caller's map left with the failures |
| Cache.Client.AddMulti | include/cache.hpp:67-69 | the bulk store with `memcached_add` |
| Cache.Client.ReplaceMulti | include/cache.hpp:75-77 | the bulk store with `memcached_replace` |
| Cache.Client.RemoveMulti | src/cache.cpp:309-336 | without a connection nothing changes; otherwise every non-empty key is deleted once in order, and the vector left is exactly the pending keys |
| Cache.Client.Remove | src/cache.cpp:298-307 | true iff the key is non-empty, there is a connection and its delete returned SUCCESS; one delete is sent exactly then |
| Cache.Client.Flush | src/cache.cpp:338-352 | a flush is sent iff there is a connection |

## Left out

- libmemcached itself is the `Server` oracle: the server list, pool destroy/pop/push, and get, mget, fetch, store, delete, flush and behaviour setting. The outcome of `memcached_pool_create` (src/cache.cpp:83, :126) is a parameter; the source does not check it, and a missing pool makes every later request inert. A failed `memcached_pool_behavior_set` or `memcached_server_list_append` is not modelled; the source only logs these.
- `Cache.Client.Configure`: when re-creating the pool fails, which behaviours were set before the failure depends on the order of the option names. The contract states only that each behaviour is either as it was or set from its option (`CacheSpec.Kept`).
- `Cache.Client.RemoveMulti` and `CacheSpec.Pending`: a delete's reply depends only on its key. So a key repeated in the vector gets the same reply each time. A real server answers SUCCESS and then NOTFOUND for a stored key, which would leave one copy; the model cannot express that.
- `Cache.Client.Flush`: the flush reply is only logged (src/cache.cpp:348-351), so the server oracle has no flush reply and the contract says only whether a flush was sent.
- The LZO routines are the `Codec` oracle. `Codec.Valid` states only the two bounds the helpers rely on: the worst-case output size, and decompression staying within capacity. The round trip is a hypothesis of `CacheSpec.StoreThenReadBack`.
- The resolver and the interface table are inputs (`SmartRouting.Resolution`, `CacheSpec.Network`). The `Endpoint` and `Interfaces` constructors (getaddrinfo, ioctl) are operating-system I/O. So are their AF_INET filtering and resolver order, and their failure to list interfaces.
- include/smartrouting.hpp's lazy global interface table is shared global state. The table is passed in instead.
- The pool's blocking pop, and the unlocked pool swap on a new pool size, are concurrency. `server.available` says whether a connection was handed out, and a new pool size is a plain update.
- `rand`, `srand` and `time` are a nondeterministic choice of the jitter in [0, 60).
- Logging and `Client::error` (src/cache.cpp:354-375) only format messages.
- The Python binding and the Django adapters are a foreign binding.
- `Cache.Client.StoreMulti`: std::map visits keys in sorted order. The model visits them in any order, so the order of the returned calls is not pinned down. Everything else in its contract holds for every order.
- Bulk stores and `remove_multi` mutate the caller's container in place. Here the container goes in by value and the leftover comes out, so aliasing is not modelled.
- `Parsing.Atoi`: overflow is undefined in C; the model's value is unbounded. The narrowing to `in_port_t` is explicit.
- `size_t` lengths are unbounded integers. Nothing in the core wraps them except through the 32-bit flags word (`Basics.ToUint32`).
- `Cache.Client.GetMulti` requires a non-empty key when there is a connection, because `&key_values[0]` on an empty vector is undefined behaviour (src/cache.cpp:206).
- `~Client` is not modelled; it destroys the pool and frees the structure. `Wrap.Wrap.Dispose` models the holder's destructor, which the client's locals rely on.
- The client's use of `wrap<T>` (connections, result records, values) is not threaded through `Cache.Client`. The holder is modelled on its own in `Wrap`, with `Wrap.RefillFromLibrary` for the fetch idiom.

## Findings

| source | as written | input that shows it | evidently intended | confidence | as-written member | corrected member |
|---|---|---|---|---|---|---|
| src/cache.cpp:322-326 | on an empty key the loop advances the iterator but does not `continue`, so it deletes at the next position | `[""]` dereferences the end of the vector; `["", ""]` calls `memcached_delete` with an empty key | an empty key is stepped over and nothing more is done with it | high, not executed | CacheSpec.RemoveMultiAsWritten (shown by CacheSpec.RemoveMultiAsWrittenMisbehaves; agreement without empty keys by CacheSpec.RemoveMultiAsWrittenAgrees) | Cache.Client.RemoveMulti |
