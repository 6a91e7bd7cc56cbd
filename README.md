# A Dafny model of the Redis cluster facade

The repository wraps the Jedis cluster driver in three pieces:
- a typed facade (`RedisClusterServiceImpl`, contract in `RedisService`);
- a Spring cache adapter over that facade (`RedisCacheImpl`);
- a factory that parses the `host:port` seed list and builds the cluster handle (`JedisClusterFactory`).

Two small helpers in `JedisUtils` are also modelled. This project models all of them in Dafny. The table under "Model" lists each promise of their code and doc comments that is proved; what is not modelled, or is stated more weakly, is listed under "Left out".

Layout, one module per file:

| file | module | models |
|---|---|---|
| `wrappers.dfy` | `Wrappers` | `Option` and `Result` |
| `utf8.dfy` | `Utf8` | `String.getBytes(UTF_8)` and `new String(bytes, UTF_8)`, with the round trip, injectivity and the ASCII case |
| `java_lang.dfy` | `JavaLang` | `String` as `Option<string>` (`None` is null); `StringUtils.isBlank`; the `int`/`long` bounds; `Integer.valueOf` / `Long.valueOf`; the decimal text Redis stores for integers; `String.format("%0Nd")`; insertion-ordered sets (`LinkedHashSet`) |
| `jedis_utils.dfy` | `JedisUtils` | `isStatusOk` and `toBytes` |
| `cluster_factory.dfy` | `ClusterFactory` | `StringUtils.split`, the endpoint regex as a matcher proved equal to its language, the `host:port` split, and the class `JedisClusterFactory`, whose `afterPropertiesSet` keeps the source's loop over the tokens |
| `hessian.dfy` | `Hessian` | the values the facade serializes, and the serializer as a pair of functions |
| `store.dfy`, `store_hash.dfy`, `store_list.dfy`, `store_set.dfy`, `store_zset.dfy` | `Store`, `StoreHash`, `StoreList`, `StoreSet`, `StoreZSet` | the Redis server as pure functions over a keyspace (`Db`), one per command the facade sends |
| `facade_spec.dfy` | `FacadeSpec` | what the facade methods compute, as functions and lemmas: the UTF-8 wire form, failed calls, SET followed by EXPIRE, the rolling counter, the left trim, the typed decoders |
| `facade.dfy` | `Facade` | the class `RedisClusterService`, one method per facade method, over a field `db` holding the keyspace |
| `cache.dfy` | `Cache` | the class `RedisCacheImpl`, its key encoders and the cache-level properties |

Modelling choices:
- **The keyspace.** `Db` maps each key to a string, hash, list, set or sorted set. Expiries are kept in a second map. Every store function keeps `Store.Valid` (no empty containers, sorted and duplicate-free sorted sets, expiries only on present keys).
- **Store failures.** Each facade method receives `faults: set<nat>`. It lists which store calls of that invocation throw, numbered from 0. The methods then show what their `catch` blocks return for each pattern of failures. A cache operation makes several facade calls, so it receives one such set per call.
- **The serializer.** Hessian is a `Codec`: `serialize`, `deserialize` (which may fail) and `describe` (the value's `toString()`). The round trip is not an axiom. It is the predicate `Hessian.Lawful`, which each lemma that needs it takes as a precondition.
- **Exceptions.** Where a Java exception escapes to the caller, the method returns the result type `Outcome`. `Threw` carries `IllegalArgument`, `NullPointer`, `Undecodable`, or a store error.

## Model

| member | source | states |
|---|---|---|
| JedisUtils.StatusOkExactly | src/main/java/com/tzg/component/redis/support/util/JedisUtils.java:19-21 | a status is OK exactly when it is non-null and equal to "OK" or "+OK" |
| JedisUtils.StatusOkIsLiteral | src/main/java/com/tzg/component/redis/support/util/JedisUtils.java:20 | null, "ok", " OK", "OK\n" and "QUEUED" are not OK; no trimming or case folding |
| JedisUtils.ToBytes | src/main/java/com/tzg/component/redis/support/util/JedisUtils.java:23-28 | null maps to null and only null does; the empty string maps to no bytes |
| JedisUtils.ToBytesInjective | src/main/java/com/tzg/component/redis/support/util/JedisUtils.java:23-28 | distinct string keys never share wire bytes |
| JedisUtils.ToBytesAscii | src/main/java/com/tzg/component/redis/support/util/JedisUtils.java:27 | an ASCII key encodes to as many bytes as characters, each equal to its character code |
| Utf8.DecodeEncode | src/main/java/com/tzg/component/redis/support/util/JedisUtils.java:27 | decoding the UTF-8 bytes of a string gives the string back |
| Utf8.EncodeInjective | src/main/java/com/tzg/component/redis/support/util/JedisUtils.java:27 | UTF-8 encoding is injective |
| Utf8.EncodeAppend | src/main/java/com/tzg/component/redis/support/util/JedisUtils.java:27 | the encoding of a concatenation is the concatenation of the encodings |
| JavaLang.BlankCases | src/main/java/com/tzg/component/redis/cluster/service/impl/RedisClusterServiceImpl.java:123-126 | null, "" and whitespace-only keys are blank; keys with any other character, a no-break space included, are not |
| JavaLang.ParseIntShow | src/main/java/com/tzg/component/redis/cluster/service/impl/RedisClusterServiceImpl.java:83-93 | `Integer.valueOf` reads back the decimal text of every int |
| JavaLang.ParseLongAcceptsRedisInt | src/main/java/com/tzg/component/redis/cluster/service/impl/RedisClusterServiceImpl.java:52-60 | `Long.valueOf` accepts every integer text Redis stores, with the same value |
| JavaLang.ParseRedisIntShow | src/main/java/com/tzg/component/redis/support/service/api/RedisService.java:87-94 | the canonical decimal text of an integer parses back to it |
| JavaLang.ShowParseRedisInt | src/main/java/com/tzg/component/redis/support/service/api/RedisService.java:87-94 | canonical integer text is the decimal text of its value |
| JavaLang.ParseExamples | src/main/java/com/tzg/component/redis/cluster/factory/JedisClusterFactory.java:71 | "6379", "+5" and "007" parse; "6379 ", "b", "" and "-" do not |
| JavaLang.ZeroPadFixedWidth | src/main/java/com/tzg/component/redis/cluster/service/impl/RedisClusterServiceImpl.java:1618-1619 | `%0Nd` of a value of at most N digits is exactly N digits and denotes the value |
| JavaLang.LinkedSet | src/main/java/com/tzg/component/redis/cluster/service/impl/RedisClusterServiceImpl.java:1209-1221 | an insertion-ordered set has the same members as its input, no repeats, no more entries, and keeps the elements in the order of their first occurrence |
| JavaLang.LinkedSetOfDistinct | src/main/java/com/tzg/component/redis/cluster/service/impl/RedisClusterServiceImpl.java:1209-1221 | a sequence without repeats is its own insertion-ordered set |
| ClusterFactory.Split | src/main/java/com/tzg/component/redis/cluster/factory/JedisClusterFactory.java:61 | every token is non-empty and free of commas |
| ClusterFactory.SplitKeepsText | src/main/java/com/tzg/component/redis/cluster/factory/JedisClusterFactory.java:61 | the tokens, joined, are the input without its commas: nothing is trimmed |
| ClusterFactory.SplitAtSeparator | src/main/java/com/tzg/component/redis/cluster/factory/JedisClusterFactory.java:61 | splitting at a comma splits each side separately |
| ClusterFactory.MatchesEndpointPatternCorrect | src/main/java/com/tzg/component/redis/cluster/factory/JedisClusterFactory.java:64-69 | the matcher accepts exactly the language of `^.+[:]\d{1,5}\s*$` |
| ClusterFactory.ParseEndpoint | src/main/java/com/tzg/component/redis/cluster/factory/JedisClusterFactory.java:70-71 | a failure names the token; a host never contains ':' and is shorter than the token |
| ClusterFactory.ParseEndpointShape | src/main/java/com/tzg/component/redis/cluster/factory/JedisClusterFactory.java:70-71 | the host is the text before the first ':' and the port the integer between the first and second ':' |
| ClusterFactory.Bootstrap | src/main/java/com/tzg/component/redis/cluster/factory/JedisClusterFactory.java:57-78 | a blank setting fails before parsing; success always yields at least one endpoint |
| ClusterFactory.CollectExact | src/main/java/com/tzg/component/redis/cluster/factory/JedisClusterFactory.java:63-73 | without a failure, the endpoints are exactly the parses of the tokens that match the pattern |
| ClusterFactory.CollectFailsAtFirstBadPort | src/main/java/com/tzg/component/redis/cluster/factory/JedisClusterFactory.java:64-71 | collection fails exactly when some matching token has no integer port, and then with the first such token |
| ClusterFactory.CollectFailureSticks | src/main/java/com/tzg/component/redis/cluster/factory/JedisClusterFactory.java:63-73 | once a prefix of the tokens fails, the whole collection fails the same way |
| ClusterFactory.CollectOne | src/main/java/com/tzg/component/redis/cluster/factory/JedisClusterFactory.java:64-71 | a non-matching token is dropped, not fatal; a matching one is parsed or fails |
| ClusterFactory.CollectTwice | src/main/java/com/tzg/component/redis/cluster/factory/JedisClusterFactory.java:63 | a repeated token yields one endpoint |
| ClusterFactory.BootstrapDuplicate | src/main/java/com/tzg/component/redis/cluster/factory/JedisClusterFactory.java:63-71 | "t,t" bootstraps to the single endpoint of t |
| ClusterFactory.BootstrapOneToken | src/main/java/com/tzg/component/redis/cluster/factory/JedisClusterFactory.java:61-77 | a setting without a comma fails, has no endpoint, or yields its one endpoint |
| ClusterFactory.BootstrapOfTokens | src/main/java/com/tzg/component/redis/cluster/factory/JedisClusterFactory.java:61-77 | a non-blank setting bootstraps to the collection of its tokens |
| ClusterFactory.TokenWithExtraSection | src/main/java/com/tzg/component/redis/cluster/factory/JedisClusterFactory.java:70-71 | "h:1:2" matches and gives (h, 1) |
| ClusterFactory.BootstrapSingle | src/main/java/com/tzg/component/redis/cluster/factory/JedisClusterFactory.java:57-85 | the setting "h:1:2" bootstraps to the one endpoint (h, 1) |
| ClusterFactory.TokenWithTrailingBlank | src/main/java/com/tzg/component/redis/cluster/factory/JedisClusterFactory.java:64-71 | "h:6379 " passes the pattern but its port is not an integer |
| ClusterFactory.BootstrapTrailingBlank | src/main/java/com/tzg/component/redis/cluster/factory/JedisClusterFactory.java:57-85 | so the setting "h:6379 " makes bootstrap throw rather than drop the token |
| ClusterFactory.TokenWithColonInHost | src/main/java/com/tzg/component/redis/cluster/factory/JedisClusterFactory.java:64-71 | "a:b:6379" passes the pattern but "b" is not a port, so it throws |
| ClusterFactory.TokenWithLongPort | src/main/java/com/tzg/component/redis/cluster/factory/JedisClusterFactory.java:64 | a six-digit port does not match the pattern |
| ClusterFactory.BootstrapNothingValid | src/main/java/com/tzg/component/redis/cluster/factory/JedisClusterFactory.java:59-77 | "h:123456" leaves no endpoint and throws; " " is blank and throws |
| ClusterFactory.MatchesEndpointPatternSound | src/main/java/com/tzg/component/redis/cluster/factory/JedisClusterFactory.java:64-69 | every token the check accepts has a colon, 1 to 5 digits after it and only whitespace after those |
| ClusterFactory.MatchesEndpointPatternComplete | src/main/java/com/tzg/component/redis/cluster/factory/JedisClusterFactory.java:64-69 | every token of that shape is accepted |
| ClusterFactory.CollectFailsOnBadToken | src/main/java/com/tzg/component/redis/cluster/factory/JedisClusterFactory.java:64-71 | the loop throws exactly when some token passes the pattern but has no integer port |
| ClusterFactory.CollectFirstBadToken | src/main/java/com/tzg/component/redis/cluster/factory/JedisClusterFactory.java:64-71 | when it throws, it throws for the first such token and every earlier token was fine |
| ClusterFactory.CollectStep | src/main/java/com/tzg/component/redis/cluster/factory/JedisClusterFactory.java:63-73 | one turn of the loop: a rejected token adds nothing, a bad port throws, a good one adds its endpoint |
| ClusterFactory.BootstrapBadToken | src/main/java/com/tzg/component/redis/cluster/factory/JedisClusterFactory.java:57-85 | a comma-free setting whose one token passes the pattern but has no integer port makes bootstrap throw for that token |
| ClusterFactory.BootstrapColonInHost | src/main/java/com/tzg/component/redis/cluster/factory/JedisClusterFactory.java:57-85 | the setting "a:b:6379" makes bootstrap throw |
| ClusterFactory.JedisClusterFactory.constructor | src/main/java/com/tzg/component/redis/cluster/factory/JedisClusterFactory.java:57 | the settings are stored and no handle exists yet |
| ClusterFactory.JedisClusterFactory.AfterPropertiesSet | src/main/java/com/tzg/component/redis/cluster/factory/JedisClusterFactory.java:57-85 | the loop computes exactly `Bootstrap`: on failure it throws that error and leaves the handle alone; on success the handle holds the endpoint set |
| ClusterFactory.JedisClusterFactory.GetObject | src/main/java/com/tzg/component/redis/cluster/factory/JedisClusterFactory.java:42-44 | returns the stored handle itself |
| ClusterFactory.JedisClusterFactory.IsSingleton | src/main/java/com/tzg/component/redis/cluster/factory/JedisClusterFactory.java:52-54 | always true |
| Hessian.ToJavaString | src/main/java/com/tzg/component/redis/cache/impl/RedisCacheImpl.java:115-120 | `toString()` fails only on null and gives a String back unchanged |
| Hessian.SerializeInjective | src/main/java/com/tzg/component/redis/cache/impl/RedisCacheImpl.java:108-113 | under a lawful codec, distinct values serialize to distinct bytes |
| Store.Del | src/main/java/com/tzg/component/redis/support/service/api/RedisService.java:79-85 | DEL removes exactly the named keys and their expiries and keeps everything else |
| Store.DelCount | src/main/java/com/tzg/component/redis/support/service/api/RedisService.java:79-85 | DEL answers the number of distinct named keys that existed |
| Store.DelMissing | src/main/java/com/tzg/component/redis/support/service/api/RedisService.java:79-85 | missing keys are ignored: DEL of keys none of which exist changes nothing and answers 0 |
| Store.ExistsThenDel | src/main/java/com/tzg/component/redis/support/service/api/RedisService.java:79-85 | DEL of distinct existing keys answers their number |
| Store.Exists | src/main/java/com/tzg/component/redis/support/service/api/RedisService.java:14-19 | EXISTS counts at most the keys named, and all of them exactly when every key exists |
| Store.MGet | src/main/java/com/tzg/component/redis/cluster/service/impl/RedisClusterServiceImpl.java:101-109 | MGET answers one entry per key, the string it holds or nil |
| Store.Expire | src/main/java/com/tzg/component/redis/support/service/api/RedisService.java:775-782 | a positive delay on an existing key records that deadline and keeps the data; a delay of 0 or less deletes the key; a missing key answers false and changes nothing; no other key or expiry changes |
| Store.ExpireAt | src/main/java/com/tzg/component/redis/support/service/api/RedisService.java:784-790 | EXPIREAT records the deadline on an existing key and leaves the data alone; a missing key answers false and changes nothing; no other key or expiry changes |
| Store.Persist | src/main/java/com/tzg/component/redis/support/service/api/RedisService.java:800-805 | PERSIST drops the key's expiry and answers whether it had one |
| Store.ExpireThenPersist | src/main/java/com/tzg/component/redis/support/service/api/RedisService.java:800-805 | after EXPIRE with a positive delay, PERSIST answers true and leaves the data with the key's expiry dropped and every other expiry as before; a delay of 0 or less does what DEL of the key does |
| Store.Get | src/main/java/com/tzg/component/redis/support/service/api/RedisService.java:21-27 | GET answers nil for a missing key, the stored string for a string key, and fails exactly on a key holding another type |
| Store.SetThenGet | src/main/java/com/tzg/component/redis/support/service/api/RedisService.java:152-160 | SET overwrites any previous type, clears the key's expiry, and touches no other key |
| Store.SetNx | src/main/java/com/tzg/component/redis/support/service/api/RedisService.java:210-217 | SETNX writes exactly when the key is missing: the key then holds the string with no expiry and no other key changes; otherwise nothing changes |
| Store.SetNxEx | src/main/java/com/tzg/component/redis/support/service/api/RedisService.java:219-226 | SET NX EX rejects a non-positive delay; on a missing key it writes the value with that deadline and answers true; on an existing key it answers false and changes nothing |
| Store.SetEx | src/main/java/com/tzg/component/redis/support/service/api/RedisService.java:201-208 | SETEX rejects exactly the non-positive delays; otherwise the key holds the string with that deadline and nothing else changes |
| Store.SetExThenGet | src/main/java/com/tzg/component/redis/support/service/api/RedisService.java:201-226 | after SETEX a GET answers the value and the key carries the deadline; on a missing key SET NX EX does the same as SETEX |
| Store.GetSet | src/main/java/com/tzg/component/redis/support/service/api/RedisService.java:228-235 | GETSET is SET answering what GET answered before, failing as GET fails |
| Store.IncrBy | src/main/java/com/tzg/component/redis/support/service/api/RedisService.java:108-116 | INCRBY fails on a key of another type; on success the reply is the stored integer (0 when missing) plus n, stored back in decimal form; only the key's value changes |
| Store.DecrBy | src/main/java/com/tzg/component/redis/support/service/api/RedisService.java:141-150 | DECRBY of the least long overflows; otherwise a key of another type is WRONGTYPE; on success the reply is the stored integer (0 when missing) minus n, stored back under the key |
| Store.IncrByFromMissing | src/main/java/com/tzg/component/redis/support/service/api/RedisService.java:87-94 | a missing key counts from 0 |
| Store.IncrByTwice | src/main/java/com/tzg/component/redis/support/service/api/RedisService.java:108-116 | two increments add up |
| Store.IncrByAdds | src/main/java/com/tzg/component/redis/support/service/api/RedisService.java:108-116 | on a key holding m, INCRBY n answers m+n and stores m+n when that stays in range |
| Store.DecrBySubtracts | src/main/java/com/tzg/component/redis/support/service/api/RedisService.java:141-150 | on a key holding m (or missing, m = 0), DECRBY n answers m-n and stores it, when n is not the least long |
| Store.DecrByStored | src/main/java/com/tzg/component/redis/support/service/api/RedisService.java:141-150 | on a key holding m, DECRBY n answers m-n and stores its decimal text |
| Store.DecrByFromMissing | src/main/java/com/tzg/component/redis/support/service/api/RedisService.java:141-150 | on a missing key, DECRBY n answers -n and stores it |
| Store.IncrByRejectsText | src/main/java/com/tzg/component/redis/support/service/api/RedisService.java:108-116 | a value that is not an integer is an error |
| Store.IncrByRejectsOverflow | src/main/java/com/tzg/component/redis/support/service/api/RedisService.java:108-116 | leaving the 64-bit range is an error |
| Store.StoredIntOfIntBytes | src/main/java/com/tzg/component/redis/support/service/api/RedisService.java:87-94 | the stored decimal text of an integer reads back as that integer |
| StoreHash.HSet | src/main/java/com/tzg/component/redis/support/service/api/RedisService.java:312-321 | HSET sets the field, answers whether it was new, and fails exactly on a key of another type |
| StoreHash.HSetNx | src/main/java/com/tzg/component/redis/support/service/api/RedisService.java:334-344 | HSETNX writes exactly when the field is new and otherwise changes nothing |
| StoreHash.HMSet | src/main/java/com/tzg/component/redis/support/service/api/RedisService.java:237-244 | HMSET merges the fields into the hash; an empty map is an error |
| StoreHash.HMGet | src/main/java/com/tzg/component/redis/support/service/api/RedisService.java:257-265 | HMGET answers the values in the order the fields were asked, nil for missing fields |
| StoreHash.HMGetMissingKey | src/main/java/com/tzg/component/redis/support/service/api/RedisService.java:257-265 | a missing key reads as an empty hash: all nils |
| StoreHash.HGet | src/main/java/com/tzg/component/redis/support/service/api/RedisService.java:276-283 | HGET answers the field's value exactly when the field exists |
| StoreHash.HIncrBy | src/main/java/com/tzg/component/redis/support/service/api/RedisService.java:346-359 | HINCRBY fails on a key of another type; on success the reply is the field's integer (0 when missing) plus n, stored back under the field; only that key changes |
| StoreHash.HIncrByStartsAtZero | src/main/java/com/tzg/component/redis/support/service/api/RedisService.java:346-359 | a missing field counts from 0, and a missing key becomes a one-field hash |
| StoreHash.HIncrByTwice | src/main/java/com/tzg/component/redis/support/service/api/RedisService.java:346-359 | two increments add up |
| StoreHash.HIncrByAdds | src/main/java/com/tzg/component/redis/support/service/api/RedisService.java:346-359 | on a field holding m, HINCRBY n answers m+n and stores it when that stays in range |
| StoreHash.HDel | src/main/java/com/tzg/component/redis/support/service/api/RedisService.java:376-383 | HDEL removes exactly the named fields and answers how many existed; no fields is an error |
| StoreHash.HDelAll | src/main/java/com/tzg/component/redis/support/service/api/RedisService.java:376-383 | removing every field removes the key |
| StoreHash.HExists | src/main/java/com/tzg/component/redis/support/service/api/RedisService.java:267-274 | HEXISTS answers field membership |
| StoreHash.HKeys | src/main/java/com/tzg/component/redis/support/service/api/RedisService.java:385-391 | HKEYS answers the field set |
| StoreHash.HLen | src/main/java/com/tzg/component/redis/support/service/api/RedisService.java:393-399 | HLEN answers the number of fields |
| StoreList.LPush | src/main/java/com/tzg/component/redis/support/service/api/RedisService.java:401-415 | LPUSH puts the values at the head in reverse order and answers the new length |
| StoreList.LPushExample | src/main/java/com/tzg/component/redis/support/service/api/RedisService.java:401-415 | LPUSH of a b c onto an empty list gives c b a |
| StoreList.LPushOneByOne | src/main/java/com/tzg/component/redis/support/service/api/RedisService.java:401-415 | one LPUSH of several values equals pushing them one at a time |
| StoreList.RPush | src/main/java/com/tzg/component/redis/support/service/api/RedisService.java:434-440 | RPUSH appends the values in order and answers the new length |
| StoreList.LPop | src/main/java/com/tzg/component/redis/support/service/api/RedisService.java:430 | LPOP removes and answers the head, nil on an empty list |
| StoreList.RPop | src/main/java/com/tzg/component/redis/support/service/api/RedisService.java:442-448 | RPOP removes and answers the tail, nil on an empty list |
| StoreList.RPopLPush | src/main/java/com/tzg/component/redis/support/service/api/RedisService.java:463-478 | a source of another type fails; an empty source answers nil without change; otherwise it fails exactly when the destination does, and on two keys the tail leaves the source and becomes the destination's head; other keys and both expiries are kept |
| StoreList.RPopLPushExample | src/main/java/com/tzg/component/redis/support/service/api/RedisService.java:463-478 | source [a,b,c], destination [x,y,z]: c moves, giving [a,b] and [c,x,y,z] |
| StoreList.RPopLPushRotates | src/main/java/com/tzg/component/redis/support/service/api/RedisService.java:463-478 | with the same key on both sides the list rotates |
| StoreList.RPopLPushMissingSource | src/main/java/com/tzg/component/redis/support/service/api/RedisService.java:463-478 | a missing source answers nil and changes nothing |
| StoreList.BRPop | src/main/java/com/tzg/component/redis/cluster/service/impl/RedisClusterServiceImpl.java:783-795 | BRPOP of a negative timeout is an error; otherwise it is RPOP |
| StoreList.BRPopLPush | src/main/java/com/tzg/component/redis/cluster/service/impl/RedisClusterServiceImpl.java:848-855 | BRPOPLPUSH of a negative timeout is an error; otherwise it is RPOPLPUSH |
| StoreList.LLen | src/main/java/com/tzg/component/redis/support/service/api/RedisService.java:493-501 | LLEN answers the list length |
| StoreList.LIndex | src/main/java/com/tzg/component/redis/support/service/api/RedisService.java:503-510 | LINDEX answers an element exactly when the index, negative ones counted from the end, is in range, and the element answered is the one at that position |
| StoreList.LSet | src/main/java/com/tzg/component/redis/support/service/api/RedisService.java:419-428 | LSET on a missing key is an error, on a key of another type WRONGTYPE; on a list it succeeds exactly when the index, negative ones counted from the end, is in range, replacing that element and touching nothing else, and otherwise answers the out-of-range error |
| StoreList.RangeBounds | src/main/java/com/tzg/component/redis/support/service/api/RedisService.java:520-529 | the resolved range lies inside the list and holds position i exactly when i lies between the start and stop indexes, negative ones counted from the end |
| StoreList.RangeAll | src/main/java/com/tzg/component/redis/support/service/api/RedisService.java:512-518 | 0 .. -1 covers the whole list |
| StoreList.LRange | src/main/java/com/tzg/component/redis/support/service/api/RedisService.java:520-529 | LRANGE answers the slice |
| StoreList.LTrim | src/main/java/com/tzg/component/redis/support/service/api/RedisService.java:533-542 | LTRIM keeps exactly the slice |
| StoreList.RemoveFirstCount | src/main/java/com/tzg/component/redis/support/service/api/RedisService.java:552-559 | removing the first n occurrences removes min(n, count) of them |
| StoreList.RemoveAllCount | src/main/java/com/tzg/component/redis/support/service/api/RedisService.java:561-568 | removing all occurrences shortens the list by their count |
| StoreList.LRem | src/main/java/com/tzg/component/redis/support/service/api/RedisService.java:552-568 | LREM fails exactly on a key of another type; a positive count leaves the list with the first count occurrences removed, 0 with all removed; the reply is the number removed; only that key's value changes |
| StoreList.RemoveFirstOne | src/main/java/com/tzg/component/redis/support/service/api/RedisService.java:552-559 | removing one occurrence takes out exactly the first one: l[..i] + l[i+1..] |
| StoreList.RemoveFirstNone | src/main/java/com/tzg/component/redis/support/service/api/RedisService.java:552-559 | removing a value that is absent leaves the list unchanged |
| StoreList.RemoveAllAppend | src/main/java/com/tzg/component/redis/support/service/api/RedisService.java:561-568 | removing all occurrences works piecewise over a concatenation |
| StoreList.RemoveAllSingle | src/main/java/com/tzg/component/redis/support/service/api/RedisService.java:561-568 | a one-element list loses its element exactly when it is the value |
| StoreList.LRemReply | src/main/java/com/tzg/component/redis/support/service/api/RedisService.java:552-568 | LREM 1 answers 1 exactly when the value is present; LREM 0 answers the number of occurrences |
| StoreSet.SAdd | src/main/java/com/tzg/component/redis/support/service/api/RedisService.java:570-577 | SADD unions the members in and answers how many were new |
| StoreSet.SAddCountsAllNew | src/main/java/com/tzg/component/redis/cluster/service/impl/RedisClusterServiceImpl.java:1030-1042 | the count equals the number of members named exactly when they are distinct and all new |
| StoreSet.SetAt | src/main/java/com/tzg/component/redis/support/service/api/RedisService.java:579-585 | SMEMBERS answers the set held, the empty set for a missing key, and fails on a key of another type |
| StoreZSet.ZAdd | src/main/java/com/tzg/component/redis/support/service/api/RedisService.java:587-596 | ZADD replaces the member's entry and answers whether it was new |
| StoreZSet.ZAddUpserts | src/main/java/com/tzg/component/redis/support/service/api/RedisService.java:587-596 | re-adding a member updates its score without a duplicate |
| StoreZSet.ZAddValid | src/main/java/com/tzg/component/redis/support/service/api/RedisService.java:587-596 | the sorted set stays sorted by (score, member) and free of duplicates |
| StoreZSet.InsertKeepsShape | src/main/java/com/tzg/component/redis/support/service/api/RedisService.java:587-596 | inserting into a sorted, duplicate-free sequence keeps it so |
| StoreZSet.RemoveMemberKeepsShape | src/main/java/com/tzg/component/redis/support/service/api/RedisService.java:729-736 | removing a member keeps the order, and shortens by one exactly when it was present |
| StoreZSet.ZRank | src/main/java/com/tzg/component/redis/support/service/api/RedisService.java:618-625 | ZRANK answers the member's position in ascending order |
| StoreZSet.ZRevRank | src/main/java/com/tzg/component/redis/support/service/api/RedisService.java:627-634 | the reverse rank exists exactly when the rank does, and the two sum to size-1 |
| StoreZSet.ZRevRankOfLast | src/main/java/com/tzg/component/redis/support/service/api/RedisService.java:627-634 | the highest-scored member has reverse rank 0 |
| StoreZSet.ZRangeWithScores | src/main/java/com/tzg/component/redis/support/service/api/RedisService.java:667-675 | ZRANGE WITHSCORES answers the resolved slice in ascending order |
| StoreZSet.ZRange | src/main/java/com/tzg/component/redis/support/service/api/RedisService.java:646-654 | ZRANGE answers the members of that slice |
| StoreZSet.ZRevRangeWithScores | src/main/java/com/tzg/component/redis/support/service/api/RedisService.java:687-695 | ZREVRANGE WITHSCORES slices the descending order |
| StoreZSet.ZRevRange | src/main/java/com/tzg/component/redis/support/service/api/RedisService.java:677-685 | ZREVRANGE answers the members of that slice |
| StoreZSet.ZRevRangeMirrors | src/main/java/com/tzg/component/redis/support/service/api/RedisService.java:677-695 | the full reverse range is the full range reversed |
| StoreZSet.ZRem | src/main/java/com/tzg/component/redis/support/service/api/RedisService.java:729-736 | ZREM removes the member and answers whether it was present |
| StoreZSet.ZRemValid | src/main/java/com/tzg/component/redis/support/service/api/RedisService.java:729-736 | after ZREM the member is gone and the set is well formed |
| StoreZSet.ZRemRangeByRank | src/main/java/com/tzg/component/redis/support/service/api/RedisService.java:748-756 | ZREMRANGEBYRANK removes the resolved slice |
| StoreZSet.ZRemRangeByRankValid | src/main/java/com/tzg/component/redis/support/service/api/RedisService.java:748-756 | and keeps the set well formed |
| StoreZSet.ZCard | src/main/java/com/tzg/component/redis/support/service/api/RedisService.java:758-764 | ZCARD answers the number of members |
| FacadeSpec.GetText | src/main/java/com/tzg/component/redis/cluster/service/impl/RedisClusterServiceImpl.java:240-251 | `get(key)` is null for a blank key, a failed call, or a key that is missing or not a string, and otherwise the decoded text |
| FacadeSpec.GetTextAfterSet | src/main/java/com/tzg/component/redis/support/service/api/RedisService.java:152-160 | `get` after `set` answers the value set |
| FacadeSpec.DelAnswersTrue | src/main/java/com/tzg/component/redis/cluster/service/impl/RedisClusterServiceImpl.java:39 | the deleted count equals the number of keys exactly when all keys exist and none repeats |
| FacadeSpec.DelCountsAll | src/main/java/com/tzg/component/redis/cluster/service/impl/RedisClusterServiceImpl.java:39 | the same, stated on wire keys |
| FacadeSpec.WireAllDistinct | src/main/java/com/tzg/component/redis/cluster/service/impl/RedisClusterServiceImpl.java:36-44 | the string keys are distinct exactly when their wire keys are |
| FacadeSpec.SetWithExpiryStores | src/main/java/com/tzg/component/redis/cluster/service/impl/RedisClusterServiceImpl.java:293-306 | without failures the value is stored, the key expires exactly when seconds > 0, and no other key changes |
| FacadeSpec.SetWithExpiryPartial | src/main/java/com/tzg/component/redis/cluster/service/impl/RedisClusterServiceImpl.java:293-306 | a failed SET changes nothing; a failed EXPIRE leaves the value stored with no expiry |
| FacadeSpec.HMSetWithExpiryStores | src/main/java/com/tzg/component/redis/cluster/service/impl/RedisClusterServiceImpl.java:422-438 | without failures the fields are merged, the key expires exactly when seconds > 0, and the answer is true |
| FacadeSpec.IncrementCounter | src/main/java/com/tzg/component/redis/cluster/service/impl/RedisClusterServiceImpl.java:1613 | a key holding counter n increments to n+1 |
| FacadeSpec.RollingCounterDigits | src/main/java/com/tzg/component/redis/cluster/service/impl/RedisClusterServiceImpl.java:1613-1619 | below the maximum, each reply is the next counter in exactly `length` digits |
| FacadeSpec.RollingCounterKeeps | src/main/java/com/tzg/component/redis/cluster/service/impl/RedisClusterServiceImpl.java:1613-1619 | below the maximum the key keeps the new counter |
| FacadeSpec.RollingCounterResets | src/main/java/com/tzg/component/redis/cluster/service/impl/RedisClusterServiceImpl.java:1614-1616 | the call that reaches 10^length - 1 deletes the key |
| FacadeSpec.RollingCounterWraps | src/main/java/com/tzg/component/redis/cluster/service/impl/RedisClusterServiceImpl.java:1613-1619 | from a missing key the reply is 1 zero-padded ("001" for length 3) |
| FacadeSpec.RollingCounterReply | src/main/java/com/tzg/component/redis/cluster/service/impl/RedisClusterServiceImpl.java:1613-1619 | the new keyspace and reply of a call, given what INCR answered |
| FacadeSpec.TrimFromLeftPositive | src/main/java/com/tzg/component/redis/cluster/service/impl/RedisClusterServiceImpl.java:975 | for size >= 1 the list becomes its first `size` elements in order |
| FacadeSpec.TrimFromLeftZeroKeepsAll | src/main/java/com/tzg/component/redis/cluster/service/impl/RedisClusterServiceImpl.java:975 | as written, size 0 keeps the whole list, unlike the intended trim |
| FacadeSpec.KeepFirst | src/main/java/com/tzg/component/redis/support/service/api/RedisService.java:544-550 | the intended trim: a prefix of min(size, length) elements, none for size <= 0 |
| FacadeSpec.KeepFirstAgrees | src/main/java/com/tzg/component/redis/cluster/service/impl/RedisClusterServiceImpl.java:975 | the intended trim equals the written one for every positive size and never exceeds `size` |
| FacadeSpec.IntOrDefault | src/main/java/com/tzg/component/redis/cluster/service/impl/RedisClusterServiceImpl.java:83-93 | the parsed int when the text is non-blank and an integer, the default otherwise |
| FacadeSpec.IntOrDefaultShow | src/main/java/com/tzg/component/redis/cluster/service/impl/RedisClusterServiceImpl.java:83-93 | the decimal text of an int reads back as that int |
| FacadeSpec.Decoded | src/main/java/com/tzg/component/redis/cluster/service/impl/RedisClusterServiceImpl.java:1209-1221 | decoding members keeps store order, skips nulls, and fails when any member cannot be decoded |
| FacadeSpec.DecodedSerialized | src/main/java/com/tzg/component/redis/cluster/service/impl/RedisClusterServiceImpl.java:1209-1221 | decoding serialized values gives them back with the nulls left out |
| FacadeSpec.DecodedStep | src/main/java/com/tzg/component/redis/cluster/service/impl/RedisClusterServiceImpl.java:1213-1219 | one loop step: a failure, a skipped null, or one value appended |
| Facade.RedisClusterService.constructor | src/main/java/com/tzg/component/redis/cluster/service/impl/RedisClusterServiceImpl.java:26-28 | the facade is given its store (the driver handle) and starts over a valid keyspace |
| Facade.RedisClusterService.Del | src/main/java/com/tzg/component/redis/cluster/service/impl/RedisClusterServiceImpl.java:36-44 | no keys throws; a failure answers false; otherwise DEL is applied and the answer is true exactly when all keys existed and were distinct |
| Facade.RedisClusterService.Exists | src/main/java/com/tzg/component/redis/cluster/service/impl/RedisClusterServiceImpl.java:1442-1450 | no keys throws; otherwise true exactly when every key exists |
| Facade.RedisClusterService.MGet | src/main/java/com/tzg/component/redis/cluster/service/impl/RedisClusterServiceImpl.java:101-109 | no keys throws; otherwise one text or null per key |
| Facade.RedisClusterService.Expire | src/main/java/com/tzg/component/redis/cluster/service/impl/RedisClusterServiceImpl.java:1627-1633 | a blank key answers null; store errors escape; 1 exactly when the key existed |
| Facade.RedisClusterService.ExpireAt | src/main/java/com/tzg/component/redis/cluster/service/impl/RedisClusterServiceImpl.java:1636-1643 | the deadline, in milliseconds, is recorded on an existing key |
| Facade.RedisClusterService.PExpireAt | src/main/java/com/tzg/component/redis/cluster/service/impl/RedisClusterServiceImpl.java:1646-1652 | the same with a deadline in milliseconds |
| Facade.RedisClusterService.Persist | src/main/java/com/tzg/component/redis/cluster/service/impl/RedisClusterServiceImpl.java:1655-1661 | the expiry is dropped; 1 exactly when there was one |
| Facade.RedisClusterService.Get | src/main/java/com/tzg/component/redis/cluster/service/impl/RedisClusterServiceImpl.java:240-251 | text of the stored string, null when blank, failed, missing or of another type |
| Facade.RedisClusterService.GetBytes | src/main/java/com/tzg/component/redis/cluster/service/impl/RedisClusterServiceImpl.java:254-261 | the stored bytes, or null |
| Facade.RedisClusterService.GetAsLong | src/main/java/com/tzg/component/redis/cluster/service/impl/RedisClusterServiceImpl.java:52-60 | `Long.valueOf` of the text, null when there is none |
| Facade.RedisClusterService.GetAsIntOr | src/main/java/com/tzg/component/redis/cluster/service/impl/RedisClusterServiceImpl.java:83-93 | the default when the text is blank, absent or not an int |
| Facade.RedisClusterService.GetAsInt | src/main/java/com/tzg/component/redis/cluster/service/impl/RedisClusterServiceImpl.java:68-75 | the same with null as default |
| Facade.RedisClusterService.IncrBy | src/main/java/com/tzg/component/redis/cluster/service/impl/RedisClusterServiceImpl.java:145-156 | a blank key is a no-op; otherwise INCRBY, with null on failure |
| Facade.RedisClusterService.Incr | src/main/java/com/tzg/component/redis/cluster/service/impl/RedisClusterServiceImpl.java:121-132 | INCRBY 1 |
| Facade.RedisClusterService.DecrBy | src/main/java/com/tzg/component/redis/cluster/service/impl/RedisClusterServiceImpl.java:221-232 | DECRBY |
| Facade.RedisClusterService.Decr | src/main/java/com/tzg/component/redis/cluster/service/impl/RedisClusterServiceImpl.java:197-208 | DECRBY 1 |
| Facade.RedisClusterService.IncrByLeng | src/main/java/com/tzg/component/redis/cluster/service/impl/RedisClusterServiceImpl.java:1607-1624 | keyspace and reply are the rolling counter's (see its lemmas) |
| Facade.RedisClusterService.Set | src/main/java/com/tzg/component/redis/cluster/service/impl/RedisClusterServiceImpl.java:273-283 | a blank key or a failure changes nothing; otherwise SET |
| Facade.RedisClusterService.SetFor | src/main/java/com/tzg/component/redis/cluster/service/impl/RedisClusterServiceImpl.java:293-306 | SET, then EXPIRE only if the write was OK and seconds > 0 |
| Facade.RedisClusterService.SetBytesFor | src/main/java/com/tzg/component/redis/cluster/service/impl/RedisClusterServiceImpl.java:327-336 | the same for byte keys |
| Facade.RedisClusterService.SetEx | src/main/java/com/tzg/component/redis/cluster/service/impl/RedisClusterServiceImpl.java:315-325 | SETEX, nothing on failure |
| Facade.RedisClusterService.SetNx | src/main/java/com/tzg/component/redis/cluster/service/impl/RedisClusterServiceImpl.java:345-356 | true exactly when the key was missing; the key then holds the value with no expiry; false and no change for a blank key or a failed call |
| Facade.RedisClusterService.SetNxFor | src/main/java/com/tzg/component/redis/cluster/service/impl/RedisClusterServiceImpl.java:365-377 | true exactly when the call succeeds, seconds > 0 and the key was missing |
| Facade.RedisClusterService.GetSet | src/main/java/com/tzg/component/redis/cluster/service/impl/RedisClusterServiceImpl.java:386-397 | writes and answers the previous text |
| Facade.RedisClusterService.GetTyped | src/main/java/com/tzg/component/redis/cluster/service/impl/RedisClusterServiceImpl.java:1468-1480 | the decoded value, null when blank, failed, missing or undecodable |
| Facade.RedisClusterService.GetAsList | src/main/java/com/tzg/component/redis/cluster/service/impl/RedisClusterServiceImpl.java:1453-1465 | the items of a stored list, null otherwise |
| Facade.RedisClusterService.SetList | src/main/java/com/tzg/component/redis/cluster/service/impl/RedisClusterServiceImpl.java:1483-1499 | SET of the serialized list then EXPIRE; the answer is EXPIRE's |
| Facade.RedisClusterService.SetObject | src/main/java/com/tzg/component/redis/cluster/service/impl/RedisClusterServiceImpl.java:1502-1518 | the same for one object; a blank key answers null |
| Facade.RedisClusterService.HMSet | src/main/java/com/tzg/component/redis/cluster/service/impl/RedisClusterServiceImpl.java:407-419 | true exactly when HMSET succeeded, which needs a non-empty map |
| Facade.RedisClusterService.HMSetFor | src/main/java/com/tzg/component/redis/cluster/service/impl/RedisClusterServiceImpl.java:422-438 | HMSET then EXPIRE; true exactly when EXPIRE answered 1 |
| Facade.RedisClusterService.HMGet | src/main/java/com/tzg/component/redis/cluster/service/impl/RedisClusterServiceImpl.java:447-459 | no fields throws; otherwise the values in field order |
| Facade.RedisClusterService.HGet | src/main/java/com/tzg/component/redis/cluster/service/impl/RedisClusterServiceImpl.java:468-479 | the field's text exactly when the field exists |
| Facade.RedisClusterService.HGetTyped | src/main/java/com/tzg/component/redis/cluster/service/impl/RedisClusterServiceImpl.java:482-497 | the decoded field, null when blank, missing, empty or undecodable |
| Facade.RedisClusterService.HGetAll | src/main/java/com/tzg/component/redis/cluster/service/impl/RedisClusterServiceImpl.java:505-516 | every field mapped to its value, as text |
| Facade.RedisClusterService.HGetAllTyped | src/main/java/com/tzg/component/redis/cluster/service/impl/RedisClusterServiceImpl.java:519-535 | every field mapped to its decoded value; null when any is undecodable |
| Facade.RedisClusterService.HVals | src/main/java/com/tzg/component/redis/cluster/service/impl/RedisClusterServiceImpl.java:537-539 | exceptions escape, and a null key is the driver's store exception; otherwise one value per field, in some enumeration order of the fields |
| Facade.RedisClusterService.HSet | src/main/java/com/tzg/component/redis/cluster/service/impl/RedisClusterServiceImpl.java:550-562 | HSET of the field, nothing on failure |
| Facade.RedisClusterService.HSetTyped | src/main/java/com/tzg/component/redis/cluster/service/impl/RedisClusterServiceImpl.java:565-575 | HSET of the serialized value |
| Facade.RedisClusterService.HSetNx | src/main/java/com/tzg/component/redis/cluster/service/impl/RedisClusterServiceImpl.java:587-598 | true exactly when the field was new and written |
| Facade.RedisClusterService.HIncrBy | src/main/java/com/tzg/component/redis/cluster/service/impl/RedisClusterServiceImpl.java:613-624 | HINCRBY, null on failure |
| Facade.RedisClusterService.HDel | src/main/java/com/tzg/component/redis/cluster/service/impl/RedisClusterServiceImpl.java:659-671 | no fields is swallowed as null; otherwise HDEL's count |
| Facade.RedisClusterService.HExists | src/main/java/com/tzg/component/redis/cluster/service/impl/RedisClusterServiceImpl.java:680-691 | null (not false) on a blank key; otherwise field membership |
| Facade.RedisClusterService.HKeys | src/main/java/com/tzg/component/redis/cluster/service/impl/RedisClusterServiceImpl.java:699-710 | the field names as text |
| Facade.RedisClusterService.HLen | src/main/java/com/tzg/component/redis/cluster/service/impl/RedisClusterServiceImpl.java:718-729 | the number of fields |
| Facade.RedisClusterService.LPush | src/main/java/com/tzg/component/redis/cluster/service/impl/RedisClusterServiceImpl.java:746-758 | no values is swallowed as null; otherwise LPUSH's length |
| Facade.RedisClusterService.LPushBytes | src/main/java/com/tzg/component/redis/cluster/service/impl/RedisClusterServiceImpl.java:760-772 | the same for byte keys |
| Facade.RedisClusterService.RPushBytes | src/main/java/com/tzg/component/redis/cluster/service/impl/RedisClusterServiceImpl.java:797-809 | RPUSH, no values swallowed as null |
| Facade.RedisClusterService.BRPop | src/main/java/com/tzg/component/redis/cluster/service/impl/RedisClusterServiceImpl.java:783-795 | null for a blank key, a failed call or a negative timeout, with nothing changed; otherwise the popped tail |
| Facade.RedisClusterService.RPopLPush | src/main/java/com/tzg/component/redis/cluster/service/impl/RedisClusterServiceImpl.java:824-835 | RPOPLPUSH and the moved element |
| Facade.RedisClusterService.BRPopLPush | src/main/java/com/tzg/component/redis/cluster/service/impl/RedisClusterServiceImpl.java:848-855 | null for a null key, a failed call or a negative timeout, with nothing changed; otherwise RPOPLPUSH without waiting |
| Facade.RedisClusterService.LLen | src/main/java/com/tzg/component/redis/cluster/service/impl/RedisClusterServiceImpl.java:865-876 | the list length |
| Facade.RedisClusterService.LIndex | src/main/java/com/tzg/component/redis/cluster/service/impl/RedisClusterServiceImpl.java:885-896 | the element at a resolved index, null out of range |
| Facade.RedisClusterService.LRange | src/main/java/com/tzg/component/redis/cluster/service/impl/RedisClusterServiceImpl.java:911-922 | the slice as text |
| Facade.RedisClusterService.LRangeAll | src/main/java/com/tzg/component/redis/cluster/service/impl/RedisClusterServiceImpl.java:898-900 | the whole list as text |
| Facade.RedisClusterService.LRangeBytes | src/main/java/com/tzg/component/redis/cluster/service/impl/RedisClusterServiceImpl.java:924-935 | the slice as bytes |
| Facade.RedisClusterService.LTrim | src/main/java/com/tzg/component/redis/cluster/service/impl/RedisClusterServiceImpl.java:949-960 | LTRIM, nothing on failure |
| Facade.RedisClusterService.LTrimFromLeft | src/main/java/com/tzg/component/redis/cluster/service/impl/RedisClusterServiceImpl.java:969-979 | LTRIM 0 .. size-1; the list becomes `TrimFromLeft` of itself |
| Facade.RedisClusterService.LRemFirst | src/main/java/com/tzg/component/redis/cluster/service/impl/RedisClusterServiceImpl.java:988-999 | true exactly when the value was in the list; the list then loses exactly its first occurrence |
| Facade.RedisClusterService.LRemAll | src/main/java/com/tzg/component/redis/cluster/service/impl/RedisClusterServiceImpl.java:1008-1019 | true exactly when the value was in the list; the list then loses every occurrence |
| Facade.RedisClusterService.LSet | src/main/java/com/tzg/component/redis/cluster/service/impl/RedisClusterServiceImpl.java:1521-1532 | true exactly when the key holds a list and the index is in range, the element then replaced; null on a blank key, a failed call, a missing key, another type or an index out of range |
| Facade.RedisClusterService.LPop | src/main/java/com/tzg/component/redis/cluster/service/impl/RedisClusterServiceImpl.java:1534-1540 | the head as text; store errors escape |
| Facade.RedisClusterService.LPopBytes | src/main/java/com/tzg/component/redis/cluster/service/impl/RedisClusterServiceImpl.java:1542-1548 | the head as bytes; store errors escape |
| Facade.RedisClusterService.RPop | src/main/java/com/tzg/component/redis/cluster/service/impl/RedisClusterServiceImpl.java:1551-1562 | the tail as text, null on failure |
| Facade.RedisClusterService.RPopBytes | src/main/java/com/tzg/component/redis/cluster/service/impl/RedisClusterServiceImpl.java:1565-1576 | the tail as bytes |
| Facade.RedisClusterService.SAdd | src/main/java/com/tzg/component/redis/cluster/service/impl/RedisClusterServiceImpl.java:1030-1042 | no members throws; true exactly when the members are distinct and all new |
| Facade.RedisClusterService.SAddOne | src/main/java/com/tzg/component/redis/cluster/service/impl/RedisClusterServiceImpl.java:1579-1590 | null on a blank key; true exactly when the member was new |
| Facade.RedisClusterService.SMembers | src/main/java/com/tzg/component/redis/cluster/service/impl/RedisClusterServiceImpl.java:1050-1061 | the members as text |
| Facade.RedisClusterService.ZAdd | src/main/java/com/tzg/component/redis/cluster/service/impl/RedisClusterServiceImpl.java:1072-1084 | true exactly when the member was new |
| Facade.RedisClusterService.ZAddTyped | src/main/java/com/tzg/component/redis/cluster/service/impl/RedisClusterServiceImpl.java:1086-1098 | the same with the serialized member |
| Facade.RedisClusterService.ZRank | src/main/java/com/tzg/component/redis/cluster/service/impl/RedisClusterServiceImpl.java:1127-1138 | the member's ascending position |
| Facade.RedisClusterService.ZRevRank | src/main/java/com/tzg/component/redis/cluster/service/impl/RedisClusterServiceImpl.java:1147-1158 | size-1 minus the ascending position |
| Facade.RedisClusterService.ZRange | src/main/java/com/tzg/component/redis/cluster/service/impl/RedisClusterServiceImpl.java:1189-1200 | the slice's members as text, in order, without repeats |
| Facade.RedisClusterService.ZRangeTyped | src/main/java/com/tzg/component/redis/cluster/service/impl/RedisClusterServiceImpl.java:1203-1227 | the slice decoded in store order, nulls skipped, repeats merged; null if any member is undecodable |
| Facade.RedisClusterService.DecodeMembers | src/main/java/com/tzg/component/redis/cluster/service/impl/RedisClusterServiceImpl.java:1209-1221 | the loop computes the insertion-ordered set of `Decoded` |
| Facade.RedisClusterService.ZRangeWithScores | src/main/java/com/tzg/component/redis/cluster/service/impl/RedisClusterServiceImpl.java:1237-1248 | the slice with scores |
| Facade.RedisClusterService.ZRevRange | src/main/java/com/tzg/component/redis/cluster/service/impl/RedisClusterServiceImpl.java:1258-1269 | the reverse slice's members as text |
| Facade.RedisClusterService.ZRevRangeWithScores | src/main/java/com/tzg/component/redis/cluster/service/impl/RedisClusterServiceImpl.java:1279-1290 | the reverse slice with scores |
| Facade.RedisClusterService.ZRem | src/main/java/com/tzg/component/redis/cluster/service/impl/RedisClusterServiceImpl.java:1367-1378 | true exactly when the member was present |
| Facade.RedisClusterService.ZRemByRank | src/main/java/com/tzg/component/redis/cluster/service/impl/RedisClusterServiceImpl.java:1409-1420 | the number removed |
| Facade.RedisClusterService.ZCard | src/main/java/com/tzg/component/redis/cluster/service/impl/RedisClusterServiceImpl.java:1428-1439 | the number of members |
| Cache.ToByte | src/main/java/com/tzg/component/redis/cache/impl/RedisCacheImpl.java:108-113 | a String key is its UTF-8 bytes, anything else its serialized form |
| Cache.ToText | src/main/java/com/tzg/component/redis/cache/impl/RedisCacheImpl.java:115-120 | null throws; a String is itself; bytes are deserialized first and throw when undecodable or null |
| Cache.PutThenGet | src/main/java/com/tzg/component/redis/cache/impl/RedisCacheImpl.java:83-85 | with a lawful codec, `get` after `put` finds the value put, for any key and delay |
| Cache.PutKeepsOthers | src/main/java/com/tzg/component/redis/cache/impl/RedisCacheImpl.java:83-85 | `put` changes no other key |
| Cache.EvictAfterPut | src/main/java/com/tzg/component/redis/cache/impl/RedisCacheImpl.java:104-113 | for a String key, `evict` removes what `put` stored |
| Cache.EvictMissesObjectKey | src/main/java/com/tzg/component/redis/cache/impl/RedisCacheImpl.java:104-120 | for a list or object key whose text differs from its serialized form, the value survives `evict` |
| Cache.PutMakesPresent | src/main/java/com/tzg/component/redis/cache/impl/RedisCacheImpl.java:83-85 | after `put` the key exists |
| Cache.FirstWriteWins | src/main/java/com/tzg/component/redis/cache/impl/RedisCacheImpl.java:91-98 | for a String key, `putIfAbsent(k,v1)` then `putIfAbsent(k,v2)` answers v1 both times and the second writes nothing |
| Cache.ObjectKeyLastWriteWins | src/main/java/com/tzg/component/redis/cache/impl/RedisCacheImpl.java:91-98 | as written, for a list or object key the second `putIfAbsent` overwrites and answers v2 |
| Cache.IntendedFirstWriteWins | src/main/java/com/tzg/component/redis/cache/impl/RedisCacheImpl.java:91-98 | with the existence check on the written bytes, the first value wins for every key |
| Cache.IntendedAgreesOnStrings | src/main/java/com/tzg/component/redis/cache/impl/RedisCacheImpl.java:91-98 | on String keys the intended and the written `putIfAbsent` coincide |
| Cache.RedisCacheImpl.constructor | src/main/java/com/tzg/component/redis/cache/impl/RedisCacheImpl.java:25 | the default delay is 1800 seconds and no service is set |
| Cache.RedisCacheImpl.AfterPropertiesSet | src/main/java/com/tzg/component/redis/cache/impl/RedisCacheImpl.java:134-138 | throws IllegalArgumentException exactly when the service is null |
| Cache.RedisCacheImpl.Get | src/main/java/com/tzg/component/redis/cache/impl/RedisCacheImpl.java:49-62 | null key answers null without a store access; otherwise the wrapped deserialized bytes under `toByte(key)`, or null |
| Cache.RedisCacheImpl.GetTyped | src/main/java/com/tzg/component/redis/cache/impl/RedisCacheImpl.java:68-72 | the facade's typed read under `toString(key)` |
| Cache.RedisCacheImpl.GetWithLoader | src/main/java/com/tzg/component/redis/cache/impl/RedisCacheImpl.java:75-77 | always null |
| Cache.RedisCacheImpl.Put | src/main/java/com/tzg/component/redis/cache/impl/RedisCacheImpl.java:83-85 | SET of the serialized value under `toByte(key)` with the default delay |
| Cache.RedisCacheImpl.PutIfAbsent | src/main/java/com/tzg/component/redis/cache/impl/RedisCacheImpl.java:91-98 | EXISTS on `toString(key)`: if present no write and a re-read; otherwise `put` then re-read; uninterrupted, exactly `PutIfAbsentStep` |
| Cache.RedisCacheImpl.Evict | src/main/java/com/tzg/component/redis/cache/impl/RedisCacheImpl.java:104-106 | DEL of `toString(key)` |

## Left out

- Floating-point commands are not modelled: `incrByFloat`, `hincrByFloat`, `zscore`, `zcount`, `zrangeByScore`, `zrangeByScoreWithScores`, `zrevrangeByScore`, `zrevrangeByScoreWithScores` and `zremByScore`. Sorted-set scores are integers.
- `publish` is not modelled: its answer is the number of subscribers, which only the server knows.
- `BRPop`, `BRPopLPush`: the wait is not modelled. A negative timeout is the server's error reply; otherwise they behave as the non-blocking pop, answering an element or null.
- JedisCluster construction, node discovery and pooling (`JedisClusterFactory.java` lines 79-83) are not modelled. The handle records only the endpoint set and the settings.
- `ClusterFactory.JedisClusterFactory.AfterPropertiesSet`: an unset `timeout` or `maxAttempts` is not modelled as the NullPointerException that unboxing it at line 79 throws; the model builds the handle with the settings as they are.
- `JedisUtils.destroyJedis` is not modelled: it only closes sockets.
- Hessian's encoding is not modelled. The codec is abstract, and its round trip is assumed only where a lemma requires `Lawful`.
- The race between the existence check and the write in `putIfAbsent` is not modelled. Cache calls run one after another.
- Time is not modelled. EXPIREAT records its deadline, and keys do not expire as time passes.
- A reply that is null in the source and a store call that throws are the same case in the model: both are a fault.
- The driver's refusal of multi-key commands whose keys lie in different hash slots is folded into the same fault parameter.
- `ParseInt`, `ParseLong`: only ASCII digits are read. `Integer.valueOf` also accepts the other Unicode decimal digits.
- `ClusterFactory.ParseEndpoint`: ports outside 1-65535 are accepted, as in the code.
- Facade typed reads (`GetTyped`, `HGetTyped`, `HGetAllTyped`, `ZRangeTyped`) follow the code: it catches deserialization failures, which the doc comments in `RedisService.java` do not mention.
- `Facade.RedisClusterService.ZRangeTyped`: the null member set the code guards against cannot occur, because ZRANGE here always answers a set.
- `Cache.RedisCacheImpl.Clear` has no contract, because it only logs. The model declares it with an empty body and changes nothing.
- The setters are modelled without rows: `Cache.RedisCacheImpl.SetName`, `SetDefaultCacheExpire` and `SetRedisService`. The getters `getName`, `getNativeCache` and `getObjectType` are not modelled: they return a field or a constant.
- `FacadeSpec.RollingCounterResets`: follows the code, which deletes the key once INCR reaches 10^length - 1 (99 for length 2). The doc comment of `incrByleng` (`RedisService.java` line 97) names 10^(length+1) and the example 1000 for length 2. The code is taken as meant, because the reply is zero-padded to exactly `length` digits and 10^(length+1) would overflow that width.
- `Utf8.Decode`: an ill-formed sequence becomes one U+FFFD per byte, where Java uses one per maximal subpart. Decoding is only applied to bytes the model encoded itself, where the two agree.
- `LRem` with a negative count is not modelled, because the facade never sends one.
- Logging is not modelled.
- `RedisProtoService` and `RedisProtoServiceImpl` are not part of this model. They pass calls through to a Spring template and have no logic of their own.

## Findings

| source | as written | input that shows it | evidently intended | confidence | as-written member | corrected member |
|---|---|---|---|---|---|---|
| src/main/java/com/tzg/component/redis/cluster/service/impl/RedisClusterServiceImpl.java:969-979 | `ltrimFromLeft(key, size)` sends LTRIM 0 size-1; for size 0 that is LTRIM 0 -1, which keeps the whole list | size 0 on a non-empty list | keep the first `size` elements, none for size 0 | not executed | FacadeSpec.TrimFromLeftZeroKeepsAll | FacadeSpec.KeepFirst (with FacadeSpec.KeepFirstAgrees) |
| src/main/java/com/tzg/component/redis/cache/impl/RedisCacheImpl.java:91-98 | `putIfAbsent` checks existence under `toString(key)` but writes under `toByte(key)`; for a non-String key these differ, so the check never sees the write | two `putIfAbsent` calls on the same list or object key whose `toString()` bytes are not its serialized bytes, with v1 then v2 | the first value stays and both calls answer v1 | not executed | Cache.ObjectKeyLastWriteWins | Cache.IntendedFirstWriteWins (on Cache.PutIfAbsentIntended) |
