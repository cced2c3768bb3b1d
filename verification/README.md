# ChunkHashGrid in Dafny

This project models the chunk index and the layered chunk cache of lvr2's
`ChunkHashGrid` (`include/lvr2/algorithm/ChunkHashGrid.hpp`). A large
reconstructed model is cut into chunks. Each chunk is addressed by a layer
name and an integer chunk coordinate (x, y, z). Chunks live in persistent
storage. A bounded number of them is kept in a local cache and evicted
least-recently-used first.

Three modules, one per concern:

- `ChunkIndex` (`chunk_index.dfy`) models `hashValue(i, j, k)`. It turns a chunk
  coordinate into a `size_t` in row-major order: x varies slowest and z fastest,
  with strides `Y*Z`, `Z` and 1, where `(X, Y, Z)` is the chunk amount.
  `HashValue` evaluates the C++ expression as written. Every `int` operand is
  converted to `size_t`, and every product and sum wraps modulo 2^64. The
  lemmas prove four things about it. First, it is the row-major formula
  modulo 2^64. Second, it does not wrap inside the grid box when `X*Y*Z`
  fits in 64 bits. Third, `Decode` inverts it. Fourth, it is injective and
  strictly monotone in the lexicographic order there.
- `Lru` (`lru.dfy`) models the recency list `m_items`. `Access` is one use of a
  key: the key is removed (all occurrences, as `std::list::remove` does) and
  pushed to the front, and the back is dropped when the list exceeds the
  capacity. `RecencyOrder` is an independent reference for it: the distinct
  keys of a usage history, ordered by last use. `ReplayIsMostRecent` proves
  the LRU promise. After any history, the list holds exactly the `cap` most
  recently used distinct keys, most recent first.
- `ChunkHashGrid` (`chunk_hash_grid.dfy`) models the grid state as an immutable
  record. It holds the abstract persistent store, the capacity `m_cacheSize`,
  the recency list `m_items`, the cache `m_hashGrid` keyed by (layer, hash),
  the chunk size, the chunk amount and the bounding box. The operations are
  pure transition functions: `LoadChunk`, `LoadFromStore`, `GetChunk`,
  `SetChunk`, `IsChunkLoaded`, `IsChunkLoadedHash` and the three setters.
  `Valid` is the class invariant. It says the recency list has no duplicates,
  lists exactly the cached keys, and is at most `cacheSize` long. `Valid`
  holds for the initial state, and every operation preserves it.
  `Coherent` says that every cached chunk of a coordinate in the grid box
  equals that coordinate's stored content.

`Wrappers` (`wrappers.dfy`) holds the `Option` type that stands for
`boost::optional`.

The half-edge mesh engine of lvr2 (builder, topology editor, segmentation,
hole filling, finalizer) is not part of this model. None of its code is among
the modelled files.

The method bodies of `ChunkHashGrid` are in `ChunkHashGrid.tcc`, which is not
part of this model. The cache operations therefore follow the header's doc
comments. Where those comments are open, the model fixes one reading:

- "If the cache is full after adding the chunk" is read as: the chunk is added
  first, and the back of the recency list is evicted when the cache then holds
  more than `cacheSize` chunks. With `cacheSize == 0`, the chunk just added is
  evicted at once.
- `loadChunk` on a key that is already cached overwrites the content and moves
  the key to the front. `setChunk` relies on this to refresh the cache.
- Persistent storage is addressed by (layer, x, y, z). The cache is addressed
  by (layer, hash). Inside the grid box the hash is injective, so the two agree
  (`KeyInjective`). Outside the box two coordinates can share a cache key, and
  `getChunk` then answers another coordinate's content (`OutOfBoxAliases`).
- The recency list is shared by all layers. Loading a chunk of one layer can
  therefore evict the least recently used chunk of another layer. Apart from
  that eviction, other layers are untouched (`LoadLeavesOtherLayers`).
- `setChunkAmount` does not rehash the cache, so cached keys keep their old
  hashes (`ChunkAmountChangeKeepsOldKeys`).

## Model

| member | source | states |
|---|---|---|
| ChunkIndex.HashValue | include/lvr2/algorithm/ChunkHashGrid.hpp:130-133 | the hash is a `size_t`: it lies in [0, 2^64) for every `int` coordinate |
| ChunkIndex.HashValueWraps | include/lvr2/algorithm/ChunkHashGrid.hpp:130-133 | the C++ evaluation with per-operation `size_t` wrap equals `(i*Y*Z + j*Z + k) mod 2^64` for all coordinates, negative ones included |
| ChunkIndex.HashValueInBox | include/lvr2/algorithm/ChunkHashGrid.hpp:130-133 | inside the box, when `X*Y*Z <= 2^64`, the hash is exactly `i*Y*Z + j*Z + k` and lies in `[0, X*Y*Z)` |
| ChunkIndex.Decode | include/lvr2/algorithm/ChunkHashGrid.hpp:130-133 | `(h/(Y*Z), (h/Z)%Y, h%Z)` of any hash below the volume is a coordinate of the box |
| ChunkIndex.DecodeHash | include/lvr2/algorithm/ChunkHashGrid.hpp:130-133 | decoding the hash of a coordinate of the box recovers the coordinate |
| ChunkIndex.HashDecode | include/lvr2/algorithm/ChunkHashGrid.hpp:130-133 | every hash below the volume is the hash of the coordinate it decodes to, so the index is a bijection from the box onto `[0, X*Y*Z)` |
| ChunkIndex.HashInjective | include/lvr2/algorithm/ChunkHashGrid.hpp:130-133 | two coordinates of the box never share a hash |
| ChunkIndex.HashOrder | include/lvr2/algorithm/ChunkHashGrid.hpp:130-133 | inside the box, the lexicographic order on (i, j, k) holds exactly when the hashes are strictly ordered, and a step along z adds exactly one |
| ChunkIndex.HashIgnoresX | include/lvr2/algorithm/ChunkHashGrid.hpp:130-133 | `chunkAmount.x` plays no part in the hash |
| Lru.Access | include/lvr2/algorithm/ChunkHashGrid.hpp:165-178 | one use of a key keeps the list duplicate-free and within capacity, and puts the key at the front; a hit keeps the same keys; a miss below capacity adds the key; a miss at capacity adds the key and drops exactly the back (least recently used) key |
| Lru.RecencyOrder | include/lvr2/algorithm/ChunkHashGrid.hpp:223-224 | the reference recency order of a history is duplicate-free and holds exactly the keys used |
| Lru.ReplayIsMostRecent | include/lvr2/algorithm/ChunkHashGrid.hpp:165-178 | replaying any usage history on an empty list leaves exactly the first `cap` keys of the reference recency order |
| ChunkHashGrid.Create | include/lvr2/algorithm/ChunkHashGrid.hpp:55 | a new grid has an empty cache and recency list, the given store, capacity and chunk parameters, and satisfies the invariant and coherence |
| ChunkHashGrid.IsChunkLoadedHash | include/lvr2/algorithm/ChunkHashGrid.hpp:99-107 | under the invariant, a (layer, hash) key is loaded exactly when it is in the recency list |
| ChunkHashGrid.IsChunkLoaded | include/lvr2/algorithm/ChunkHashGrid.hpp:109-119 | under the invariant, a coordinate is loaded exactly when its (layer, hashValue) key is in the recency list |
| ChunkHashGrid.Admit | include/lvr2/algorithm/ChunkHashGrid.hpp:165-178 | caching data under a key preserves the invariant, stores the data under the key when the capacity is positive, changes no other cached content, and can lose only the least recently used key, and only on a miss with a full cache |
| ChunkHashGrid.LoadChunk | include/lvr2/algorithm/ChunkHashGrid.hpp:165-178 | after `loadChunk` the chunk is loaded with the given data at the front of the recency list (capacity at least one); storage and settings are unchanged; other cached chunks keep their content; on a miss with a full cache exactly the least recently used chunk is evicted and no other |
| ChunkHashGrid.LoadFromStore | include/lvr2/algorithm/ChunkHashGrid.hpp:151-163 | returns true exactly when storage holds the chunk, which is then cached with the stored content; on false the grid is unchanged |
| ChunkHashGrid.GetChunk | include/lvr2/algorithm/ChunkHashGrid.hpp:81-97 | a hit returns the cached content, leaves the cache contents unchanged and moves the key to the front; a miss returns the stored content and caches it; a chunk absent from storage gives `None` and leaves the grid unchanged |
| ChunkHashGrid.SetChunk | include/lvr2/algorithm/ChunkHashGrid.hpp:65-79 | `setChunk` writes the data through to storage and caches it as the most recently used chunk, other cached content unchanged |
| ChunkHashGrid.SetBoundingBox | include/lvr2/algorithm/ChunkHashGrid.hpp:180-189 | only the bounding box changes, and the getter returns the new one; invariant and coherence preserved |
| ChunkHashGrid.SetChunkSize | include/lvr2/algorithm/ChunkHashGrid.hpp:191-200 | only the chunk size changes, and the getter returns the new one; invariant and coherence preserved |
| ChunkHashGrid.SetChunkAmount | include/lvr2/algorithm/ChunkHashGrid.hpp:202-212 | only the chunk amount changes, and the getter returns the new one; the invariant is preserved |
| ChunkHashGrid.LoadChunkThenLoaded | include/lvr2/algorithm/ChunkHashGrid.hpp:165-178 | after `loadChunk` with capacity at least one the chunk is loaded, at most `cacheSize` chunks are cached, and the only chunk that can have left is the back of the old recency list |
| ChunkHashGrid.LoadAllReplays | include/lvr2/algorithm/ChunkHashGrid.hpp:220-224 | a sequence of `loadChunk` calls moves the recency list exactly as replaying the keys they touch |
| ChunkHashGrid.LoadAllKeepsMostRecent | include/lvr2/algorithm/ChunkHashGrid.hpp:165-178 | from an empty cache, any sequence of `loadChunk` calls leaves cached exactly the `cacheSize` most recently loaded distinct keys, in recency order |
| ChunkHashGrid.LoadLeavesOtherLayers | include/lvr2/algorithm/ChunkHashGrid.hpp:223-227 | loading a chunk of one layer keeps every cached chunk of another layer with the same content, except the least recently used key when it is evicted |
| ChunkHashGrid.SetChunkStoresOnly | include/lvr2/algorithm/ChunkHashGrid.hpp:65-79 | `setChunk` stores the data for its coordinate and leaves every other stored chunk as it was |
| ChunkHashGrid.KeyInjective | include/lvr2/algorithm/ChunkHashGrid.hpp:226-227 | two coordinates of the grid box with the same (layer, hash) cache key are the same coordinate |
| ChunkHashGrid.SetChunkCoherent | include/lvr2/algorithm/ChunkHashGrid.hpp:65-79 | `setChunk` on a coordinate of the box preserves coherence between cache and storage |
| ChunkHashGrid.GetChunkCoherent | include/lvr2/algorithm/ChunkHashGrid.hpp:81-97 | `getChunk` on a coordinate of the box preserves coherence between cache and storage |
| ChunkHashGrid.GetChunkMatchesStore | include/lvr2/algorithm/ChunkHashGrid.hpp:81-97 | in a coherent grid `getChunk` of a coordinate of the box answers exactly the stored content, or `None` when there is none |
| ChunkHashGrid.StepRemembers | include/lvr2/algorithm/ChunkHashGrid.hpp:65-97 | one public operation on another coordinate of the box leaves the stored and cached content of a coordinate unchanged |
| ChunkHashGrid.RunRemembers | include/lvr2/algorithm/ChunkHashGrid.hpp:65-97 | any sequence of public operations on other coordinates of the box leaves the stored and cached content of a coordinate unchanged |
| ChunkHashGrid.SetThenGet | include/lvr2/algorithm/ChunkHashGrid.hpp:65-97 | `setChunk` then `getChunk` on the same coordinate returns the data, whatever operations on other coordinates of the box came between, evictions included |
| ChunkHashGrid.OutOfBoxAliases | include/lvr2/algorithm/ChunkHashGrid.hpp:130-133 | with amounts (2, 2, 2), chunks (0, 0, 2) and (0, 1, 0) share a key, so `getChunk` of the second answers the first's content although storage has nothing for it |
| ChunkHashGrid.ChunkAmountChangeKeepsOldKeys | include/lvr2/algorithm/ChunkHashGrid.hpp:202-212 | after `setChunkAmount` the cache is not rehashed: a chunk cached under the old amounts is answered for a different coordinate |

## Left out

- Persistence through HDF5 (`m_io`, the `saveBoundingBox`, `saveChunkSize` and `saveAmount` calls): storage is an abstract map from (layer, x, y, z) to chunk content. Only chunk content is persisted in the model, not the chunk parameters.
- The file-opening constructors: `Create` gives the state after construction, with the store passed in instead of an HDF5 path.
- The `boost::variant` payload and the template parameter `T` of `getChunk`/`setChunk`/`loadChunk`: chunk content is an opaque type `V`. The `boost::bad_get` raised when `T` does not match the stored alternative is not modelled.
- The floating-point chunk size and bounding box are stored and returned, with no arithmetic on them. They are modelled as `real`.
- Coordinates are unbounded integers rather than 32-bit `int`. The conversion to `size_t` is modelled as reduction modulo 2^64, which agrees with C++ on every 32-bit value.
- The `size_t` bound on each chunk amount is not imposed. The no-wrap results assume instead that `X*Y*Z <= 2^64` (`Fits`).
- ChunkHashGrid.SetThenGet: stated only when the intervening operations address coordinates of the grid box and do not change the chunk amount. Outside the box two coordinates can share a cache key (`OutOfBoxAliases`), and `setChunkAmount` does not rehash the cache (`ChunkAmountChangeKeepsOldKeys`).
- ChunkHashGrid.LoadLeavesOtherLayers: layers are not fully independent, because the recency list is shared by all layers. A load in one layer can evict the least recently used chunk of another layer, and the lemma states exactly that.
- ChunkHashGrid.GetChunk: on a miss with `cacheSize == 0` it returns the stored content, although nothing stays cached. What the unseen `.tcc` does in that case is not known.
- `ChunkHashGrid.tcc`, `HDF5IO.hpp`, `FinalizeAlgorithm.tcc`, the Qt application `MainWindow.cpp` and the half-edge mesh engine are not part of this model. They consist of file I/O, GUI, device capture and threads, or code whose body is not available.
