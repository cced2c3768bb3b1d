/**
  The layered chunk cache of `ChunkHashGrid`.

  Chunks are addressed by a layer name and a chunk coordinate. Persistent
  storage is an abstract map from (layer, x, y, z) to chunk content. The local
  cache `hashGrid` is keyed by (layer, hash), where the hash is `HashValue` of
  the coordinate under the current chunk amounts; `items` is the recency list
  of cached keys (front = most recently used) and `cacheSize` its capacity.

  Operations are pure transition functions from one grid state to the next.
  Every reachable state satisfies `Valid`: the recency list has no duplicate,
  lists exactly the cached keys, and holds at most `cacheSize` of them.
 */
module ChunkHashGrid {
  import opened Wrappers
  import opened ChunkIndex
  import Lru

  /** A cache key: the pair (layer, hash) kept in the recency list. */
  datatype Key = Key(layer: string, hash: nat)

  /** A chunk address in persistent storage: layer and chunk coordinate. */
  datatype Coord = Coord(layer: string, x: int, y: int, z: int)

  /** Stored only; no arithmetic is done on the floating-point fields. */
  datatype Vec3 = Vec3(x: real, y: real, z: real)

  datatype BoundingBox = BoundingBox(min: Vec3, max: Vec3)

  /** The state of a chunk hash grid; `V` is the opaque chunk content (mesh or point buffer). */
  datatype Grid<V> = Grid(
    store: map<Coord, V>,
    cacheSize: nat,
    items: seq<Key>,
    hashGrid: map<Key, V>,
    chunkSize: real,
    chunkAmount: Amount,
    boundingBox: BoundingBox)

  /** The reply of `GetChunk`: the next state and the chunk, if there is one. */
  datatype Reply<V> = Reply(grid: Grid<V>, chunk: Option<V>)

  /** One public operation, for stating properties of operation sequences. */
  datatype Op<V> =
    | SetOp(at: Coord, data: V)
    | GetOp(at: Coord)
    | ChunkSizeOp(size: real)
    | BoundingBoxOp(box: BoundingBox)

  /** The cache key of a coordinate under the chunk amounts `a`. */
  function KeyOf(a: Amount, c: Coord): Key
  {
    Key(c.layer, HashValue(a, c.x, c.y, c.z))
  }

  /** The coordinate lies in the grid box. */
  predicate InGrid(a: Amount, c: Coord)
  {
    InBox(a, c.x, c.y, c.z)
  }

  /** The class invariant tying the recency list to the cache map. */
  ghost predicate Valid<V>(g: Grid<V>)
  {
    && Lru.NoDup(g.items)
    && |g.items| <= g.cacheSize
    && (forall k :: k in g.items <==> k in g.hashGrid)
  }

  /** Storage, capacity and the chunk parameters agree. */
  ghost predicate SameSettings<V>(g: Grid<V>, r: Grid<V>)
  {
    && r.store == g.store
    && r.cacheSize == g.cacheSize
    && r.chunkSize == g.chunkSize
    && r.chunkAmount == g.chunkAmount
    && r.boundingBox == g.boundingBox
  }

  /**
    Every cached chunk of a coordinate of the grid box is that coordinate's
    content in persistent storage.
   */
  ghost predicate Coherent<V>(g: Grid<V>)
  {
    forall c: Coord :: InGrid(g.chunkAmount, c) && KeyOf(g.chunkAmount, c) in g.hashGrid ==>
      c in g.store && g.store[c] == g.hashGrid[KeyOf(g.chunkAmount, c)]
  }

  /** The cached chunks of one layer, as the inner map `m_hashGrid[layer]`. */
  function LayerView<V>(g: Grid<V>, layer: string): map<nat, V>
  {
    map k | k in g.hashGrid && k.layer == layer :: k.hash := g.hashGrid[k]
  }

  // ---------------------------------------------------------------------
  // Construction

  /** A grid over persistent storage `store` with an empty cache. */
  function Create<V>(store: map<Coord, V>, cacheSize: nat, box: BoundingBox, chunkSize: real, amount: Amount): (g: Grid<V>)
    ensures Valid(g) && Coherent(g)
    ensures g.hashGrid == map[] && g.items == [] && g.store == store && g.cacheSize == cacheSize
    ensures g.chunkAmount == amount && g.chunkSize == chunkSize && g.boundingBox == box
  {
    Grid(store, cacheSize, [], map[], chunkSize, amount, box)
  }

  // ---------------------------------------------------------------------
  // Cache queries

  /** `isChunkLoaded(layer, hashValue)`: the key is cached. */
  function IsChunkLoadedHash<V>(g: Grid<V>, layer: string, hash: nat): (b: bool)
    ensures Valid(g) ==> (b <==> Key(layer, hash) in g.items)
  {
    Key(layer, hash) in g.hashGrid
  }

  /** `isChunkLoaded(layer, x, y, z)`: the coordinate's key is cached. */
  function IsChunkLoaded<V>(g: Grid<V>, c: Coord): (b: bool)
    ensures Valid(g) ==> (b <==> KeyOf(g.chunkAmount, c) in g.items)
  {
    IsChunkLoadedHash(g, c.layer, KeyOf(g.chunkAmount, c).hash)
  }

  // ---------------------------------------------------------------------
  // Loading into the cache

  /**
    Caches `data` under `key` and makes `key` the most recently used; when the
    cache then holds more than `cacheSize` chunks, the back of the recency list
    is evicted.
   */
  function Admit<V>(g: Grid<V>, key: Key, data: V): (r: Grid<V>)
    requires Valid(g)
    ensures Valid(r) && SameSettings(g, r)
    ensures r.items == Lru.Access(g.items, key, g.cacheSize)
    ensures g.cacheSize > 0 ==> key in r.hashGrid && r.hashGrid[key] == data
    ensures g.cacheSize == 0 ==> r.hashGrid == map[]
    ensures forall k :: k in r.hashGrid && k != key ==> k in g.hashGrid && r.hashGrid[k] == g.hashGrid[k]
    ensures forall k :: k in g.hashGrid && k !in r.hashGrid ==>
      key !in g.hashGrid && |g.items| == g.cacheSize && k == g.items[|g.items| - 1]
    ensures key !in g.hashGrid && 0 < |g.items| == g.cacheSize ==> g.items[|g.items| - 1] !in r.hashGrid
  {
    var t := Lru.Touch(g.items, key);
    var cached := g.hashGrid[key := data];
    if |t| <= g.cacheSize then
      var r := g.(items := t, hashGrid := cached);
      AdmitFits(g, key, data, r);
      r
    else
      var r := g.(items := t[..|t| - 1], hashGrid := cached - {t[|t| - 1]});
      AdmitOverflows(g, key, data, r);
      AdmitEvicts(g, key, data, r);
      r
  }

  /** Without overflow the key joins the cache and nothing is evicted. */
  lemma AdmitFits<V>(g: Grid<V>, key: Key, data: V, r: Grid<V>)
    requires Valid(g) && |Lru.Touch(g.items, key)| <= g.cacheSize
    requires r == g.(items := Lru.Touch(g.items, key), hashGrid := g.hashGrid[key := data])
    ensures Valid(r)
    ensures r.items == Lru.Access(g.items, key, g.cacheSize)
    ensures g.cacheSize > 0 && key in r.hashGrid && r.hashGrid[key] == data
    ensures forall k :: k in r.hashGrid && k != key ==> k in g.hashGrid && r.hashGrid[k] == g.hashGrid[k]
    ensures forall k :: k in g.hashGrid ==> k in r.hashGrid
    ensures key !in g.hashGrid ==> |g.items| < g.cacheSize
  {
    Lru.TouchNoDup(g.items, key);
  }

  /** On overflow the key was missing, the cache was full, and the invariant survives the eviction. */
  lemma AdmitOverflows<V>(g: Grid<V>, key: Key, data: V, r: Grid<V>)
    requires Valid(g) && |Lru.Touch(g.items, key)| > g.cacheSize
    requires var t := Lru.Touch(g.items, key);
      r == g.(items := t[..|t| - 1], hashGrid := g.hashGrid[key := data] - {t[|t| - 1]})
    ensures Valid(r)
    ensures r.items == Lru.Access(g.items, key, g.cacheSize)
    ensures key !in g.hashGrid && |g.items| == g.cacheSize
  {
    Lru.TouchNoDup(g.items, key);
    Lru.DropLast(g.items, key, g.cacheSize);
    var t := Lru.Touch(g.items, key);
    EvictMatches(g.items, g.hashGrid, key, data, t[|t| - 1], t[..|t| - 1]);
  }

  /** On overflow the old back of the recency list is the one chunk evicted. */
  lemma AdmitEvicts<V>(g: Grid<V>, key: Key, data: V, r: Grid<V>)
    requires Valid(g) && |Lru.Touch(g.items, key)| > g.cacheSize
    requires var t := Lru.Touch(g.items, key);
      r == g.(items := t[..|t| - 1], hashGrid := g.hashGrid[key := data] - {t[|t| - 1]})
    ensures g.cacheSize > 0 ==> key in r.hashGrid && r.hashGrid[key] == data
    ensures g.cacheSize == 0 ==> r.hashGrid == map[]
    ensures forall k :: k in r.hashGrid && k != key ==> k in g.hashGrid && r.hashGrid[k] == g.hashGrid[k]
    ensures forall k :: k in g.hashGrid && k !in r.hashGrid ==> k == g.items[|g.items| - 1]
    ensures 0 < |g.items| ==> g.items[|g.items| - 1] !in r.hashGrid
  {
    Lru.TouchNoDup(g.items, key);
    Lru.DropLast(g.items, key, g.cacheSize);
    var t := Lru.Touch(g.items, key);
    if g.cacheSize == 0 {
      assert t == [key];
      assert g.hashGrid == map[];
    } else {
      assert t == [key] + g.items;
      EvictContent(g.hashGrid, key, data, g.items[|g.items| - 1]);
    }
  }

  /** Caching `data` under `key` and evicting another key `out` changes nothing else. */
  lemma EvictContent<V>(m: map<Key, V>, key: Key, data: V, out: Key)
    requires out != key
    ensures var c := m[key := data] - {out};
      && key in c && c[key] == data && out !in c
      && (forall k :: k in c && k != key ==> k in m && c[k] == m[k])
      && (forall k :: k in m && k !in c ==> k == out)
  {
  }

  /**
    Caching `key` and evicting `out` keeps the recency list and the cache
    holding the same keys.
   */
  lemma EvictMatches<V>(items: seq<Key>, m: map<Key, V>, key: Key, data: V, out: Key, kept: seq<Key>)
    requires forall x :: x in items <==> x in m
    requires forall x :: x in kept <==> (x in items || x == key) && x != out
    ensures forall x :: x in kept <==> x in m[key := data] - {out}
  {
  }

  /**
    `loadChunk(layer, x, y, z, data)`: caches `data` under the coordinate's key
    and makes it the most recently used; when the cache then holds more than
    `cacheSize` chunks the least recently used one is evicted.
   */
  function LoadChunk<V>(g: Grid<V>, c: Coord, data: V): (r: Grid<V>)
    requires Valid(g)
    ensures Valid(r) && SameSettings(g, r)
    ensures r.items == Lru.Access(g.items, KeyOf(g.chunkAmount, c), g.cacheSize)
    ensures g.cacheSize > 0 ==>
      IsChunkLoaded(r, c) && r.hashGrid[KeyOf(g.chunkAmount, c)] == data && r.items[0] == KeyOf(g.chunkAmount, c)
    ensures g.cacheSize == 0 ==> r.hashGrid == map[]
    ensures forall k :: k in r.hashGrid && k != KeyOf(g.chunkAmount, c) ==>
      k in g.hashGrid && r.hashGrid[k] == g.hashGrid[k]
    ensures forall k :: k in g.hashGrid && k !in r.hashGrid ==>
      KeyOf(g.chunkAmount, c) !in g.hashGrid && |g.items| == g.cacheSize && k == g.items[|g.items| - 1]
    ensures KeyOf(g.chunkAmount, c) !in g.hashGrid && 0 < |g.items| == g.cacheSize ==>
      g.items[|g.items| - 1] !in r.hashGrid
  {
    Admit(g, KeyOf(g.chunkAmount, c), data)
  }

  /**
    `loadChunk<T>(layer, x, y, z)`: loads the coordinate's chunk from
    persistent storage into the cache; false, with nothing changed, when
    storage has no such chunk.
   */
  function LoadFromStore<V>(g: Grid<V>, c: Coord): (r: (bool, Grid<V>))
    requires Valid(g)
    ensures Valid(r.1) && SameSettings(g, r.1)
    ensures r.0 <==> c in g.store
    ensures !r.0 ==> r.1 == g
    ensures r.0 ==> r.1 == LoadChunk(g, c, g.store[c])
    ensures r.0 && g.cacheSize > 0 ==>
      IsChunkLoaded(r.1, c) && r.1.hashGrid[KeyOf(g.chunkAmount, c)] == g.store[c]
  {
    if c in g.store then (true, LoadChunk(g, c, g.store[c])) else (false, g)
  }

  // ---------------------------------------------------------------------
  // Public chunk access

  /**
    `getChunk(layer, x, y, z)`: on a hit, the cached content, and the chunk
    becomes the most recently used; on a miss, the content from persistent
    storage, which is cached on the way; nothing when storage has no such chunk.
   */
  function GetChunk<V>(g: Grid<V>, c: Coord): (r: Reply<V>)
    requires Valid(g)
    ensures Valid(r.grid) && SameSettings(g, r.grid)
    ensures IsChunkLoaded(g, c) ==>
      && r.chunk == Some(g.hashGrid[KeyOf(g.chunkAmount, c)])
      && r.grid.hashGrid == g.hashGrid
      && r.grid.items == Lru.Touch(g.items, KeyOf(g.chunkAmount, c))
    ensures !IsChunkLoaded(g, c) && c in g.store ==>
      && r.chunk == Some(g.store[c])
      && r.grid == LoadChunk(g, c, g.store[c])
      && (g.cacheSize > 0 ==> IsChunkLoaded(r.grid, c))
    ensures !IsChunkLoaded(g, c) && c !in g.store ==> r.chunk == None && r.grid == g
  {
    var key := KeyOf(g.chunkAmount, c);
    if key in g.hashGrid then
      Reply(g.(items := Lru.Access(g.items, key, g.cacheSize)), Some(g.hashGrid[key]))
    else
      var loaded := LoadFromStore(g, c);
      if loaded.0 then Reply(loaded.1, Some(g.store[c])) else Reply(g, None)
  }

  /**
    `setChunk(layer, x, y, z, data)`: writes `data` to persistent storage and
    loads it into the cache as the most recently used chunk.
   */
  function SetChunk<V>(g: Grid<V>, c: Coord, data: V): (r: Grid<V>)
    requires Valid(g)
    ensures Valid(r)
    ensures r.store == g.store[c := data]
    ensures r.cacheSize == g.cacheSize && r.chunkAmount == g.chunkAmount
    ensures r.chunkSize == g.chunkSize && r.boundingBox == g.boundingBox
    ensures r.items == Lru.Access(g.items, KeyOf(g.chunkAmount, c), g.cacheSize)
    ensures g.cacheSize > 0 ==> IsChunkLoaded(r, c) && r.hashGrid[KeyOf(g.chunkAmount, c)] == data
    ensures forall k :: k in r.hashGrid && k != KeyOf(g.chunkAmount, c) ==>
      k in g.hashGrid && r.hashGrid[k] == g.hashGrid[k]
  {
    LoadChunk(g.(store := g.store[c := data]), c, data)
  }

  // ---------------------------------------------------------------------
  // Chunk parameters

  /** `setBoundingBox`: replaces the bounding box and nothing else. */
  function SetBoundingBox<V>(g: Grid<V>, box: BoundingBox): (r: Grid<V>)
    ensures r.boundingBox == box
    ensures r == g.(boundingBox := box)
    ensures Valid(g) ==> Valid(r)
    ensures Coherent(g) ==> Coherent(r)
  {
    g.(boundingBox := box)
  }

  /** `setChunkSize`: replaces the chunk size and nothing else. */
  function SetChunkSize<V>(g: Grid<V>, size: real): (r: Grid<V>)
    ensures r.chunkSize == size
    ensures r == g.(chunkSize := size)
    ensures Valid(g) ==> Valid(r)
    ensures Coherent(g) ==> Coherent(r)
  {
    g.(chunkSize := size)
  }

  /**
    `setChunkAmount`: replaces the chunk amounts and nothing else. Keys already
    cached keep the hashes computed under the old amounts.
   */
  function SetChunkAmount<V>(g: Grid<V>, amount: Amount): (r: Grid<V>)
    ensures r.chunkAmount == amount
    ensures r == g.(chunkAmount := amount)
    ensures Valid(g) ==> Valid(r)
  {
    g.(chunkAmount := amount)
  }

  // ---------------------------------------------------------------------
  // Operation sequences

  /** One public operation. */
  function Step<V>(g: Grid<V>, op: Op<V>): (r: Grid<V>)
    requires Valid(g)
    ensures Valid(r) && r.chunkAmount == g.chunkAmount && r.cacheSize == g.cacheSize
  {
    match op
    case SetOp(c, d) => SetChunk(g, c, d)
    case GetOp(c) => GetChunk(g, c).grid
    case ChunkSizeOp(s) => SetChunkSize(g, s)
    case BoundingBoxOp(b) => SetBoundingBox(g, b)
  }

  /** The operations `ops`, in order. */
  function Run<V>(g: Grid<V>, ops: seq<Op<V>>): (r: Grid<V>)
    requires Valid(g)
    ensures Valid(r) && r.chunkAmount == g.chunkAmount && r.cacheSize == g.cacheSize
    decreases |ops|
  {
    if |ops| == 0 then g else Run(Step(g, ops[0]), ops[1..])
  }

  /** `loadChunk` for each (coordinate, data) pair of `loads`, in order. */
  function LoadAll<V>(g: Grid<V>, loads: seq<(Coord, V)>): (r: Grid<V>)
    requires Valid(g)
    ensures Valid(r) && SameSettings(g, r)
    decreases |loads|
  {
    if |loads| == 0 then g
    else
      var n := |loads| - 1;
      LoadChunk(LoadAll(g, loads[..n]), loads[n].0, loads[n].1)
  }

  /** The cache keys that the loads touch, in order. */
  function KeysOf<V>(a: Amount, loads: seq<(Coord, V)>): (ks: seq<Key>)
    ensures |ks| == |loads|
    ensures forall n :: 0 <= n < |loads| ==> ks[n] == KeyOf(a, loads[n].0)
  {
    seq(|loads|, n requires 0 <= n < |loads| => KeyOf(a, loads[n].0))
  }

  /** The operation addresses a coordinate of the grid box, or no coordinate. */
  predicate OpInGrid<V>(a: Amount, op: Op<V>)
  {
    match op
    case SetOp(c, _) => InGrid(a, c)
    case GetOp(c) => InGrid(a, c)
    case _ => true
  }

  // ---------------------------------------------------------------------
  // Properties

  /**
    After `loadChunk` the chunk is loaded (when the capacity is at least one),
    the cache holds at most `cacheSize` chunks, and the only chunk that can
    have left the cache is the least recently used one.
   */
  lemma LoadChunkThenLoaded<V>(g: Grid<V>, c: Coord, data: V)
    requires Valid(g) && g.cacheSize > 0
    ensures IsChunkLoaded(LoadChunk(g, c, data), c)
    ensures |LoadChunk(g, c, data).hashGrid.Keys| <= g.cacheSize
    ensures g.items == [] || g.hashGrid.Keys - LoadChunk(g, c, data).hashGrid.Keys <= {g.items[|g.items| - 1]}
  {
    var r := LoadChunk(g, c, data);
    ItemsCountCached(r);
  }

  /** A sequence of `loadChunk` calls moves the recency list exactly as replaying its keys does. */
  lemma {:induction false} LoadAllReplays<V>(g: Grid<V>, loads: seq<(Coord, V)>)
    requires Valid(g)
    ensures LoadAll(g, loads).items == Lru.Replay(g.items, KeysOf(g.chunkAmount, loads), g.cacheSize)
    decreases |loads|
  {
    if |loads| > 0 {
      var n := |loads| - 1;
      LoadAllReplays(g, loads[..n]);
      KeysOfPrefix(g.chunkAmount, loads);
    }
  }

  /** The keys of all loads but the last are the keys of that prefix. */
  lemma KeysOfPrefix<V>(a: Amount, loads: seq<(Coord, V)>)
    requires |loads| > 0
    ensures var ks := KeysOf(a, loads);
      && ks[..|ks| - 1] == KeysOf(a, loads[..|loads| - 1])
      && ks[|ks| - 1] == KeyOf(a, loads[|loads| - 1].0)
  {
  }

  /**
    The LRU promise of the cache: starting from an empty cache, after any
    sequence of `loadChunk` calls the cache holds exactly the `cacheSize` most
    recently loaded distinct keys, ordered from most to least recently used.
   */
  lemma LoadAllKeepsMostRecent<V>(g: Grid<V>, loads: seq<(Coord, V)>)
    requires Valid(g) && g.items == []
    ensures LoadAll(g, loads).items == Lru.Take(Lru.RecencyOrder(KeysOf(g.chunkAmount, loads)), g.cacheSize)
    ensures forall k :: k in LoadAll(g, loads).hashGrid <==> k in LoadAll(g, loads).items
  {
    LoadAllReplays(g, loads);
    Lru.ReplayIsMostRecent(KeysOf(g.chunkAmount, loads), g.cacheSize);
  }

  /** Under the invariant the cache holds exactly as many chunks as the recency list. */
  lemma ItemsCountCached<V>(g: Grid<V>)
    requires Valid(g)
    ensures |g.hashGrid.Keys| == |g.items|
  {
    var s := set k | k in g.items;
    assert s == g.hashGrid.Keys;
    DistinctCount(g.items);
  }

  lemma {:induction false} DistinctCount<K(!new)>(s: seq<K>)
    requires Lru.NoDup(s)
    ensures |set k | k in s| == |s|
    decreases |s|
  {
    if |s| > 0 {
      var rest := s[1..];
      assert Lru.NoDup(rest);
      DistinctCount(rest);
      assert (set k | k in s) == (set k | k in rest) + {s[0]};
      assert s[0] !in rest;
    }
  }

  /**
    Layers are independent: loading a chunk of layer `c.layer` leaves every
    chunk of another layer cached with the same content, except the least
    recently used one when it is evicted.
   */
  lemma LoadLeavesOtherLayers<V>(g: Grid<V>, c: Coord, data: V, layer: string)
    requires Valid(g) && layer != c.layer
    ensures var r := LoadChunk(g, c, data);
      forall h :: h in LayerView(r, layer) ==> h in LayerView(g, layer) && LayerView(r, layer)[h] == LayerView(g, layer)[h]
    ensures var r := LoadChunk(g, c, data);
      forall h :: h in LayerView(g, layer) && h !in LayerView(r, layer) ==> g.items[|g.items| - 1] == Key(layer, h)
  {
  }

  /** `setChunk` writes the chunk of `c` to storage and leaves every other stored chunk as it was. */
  lemma SetChunkStoresOnly<V>(g: Grid<V>, c: Coord, data: V)
    requires Valid(g)
    ensures var r := SetChunk(g, c, data);
      c in r.store && r.store[c] == data
      && forall c' :: c' != c ==> (c' in r.store <==> c' in g.store) && (c' in g.store ==> r.store[c'] == g.store[c'])
  {
  }

  /**
    A coordinate of the grid box has a key no other coordinate of the box
    shares: in the same layer both are hashed, and the hash is injective there.
   */
  lemma KeyInjective(a: Amount, c1: Coord, c2: Coord)
    requires Fits(a) && InGrid(a, c1) && InGrid(a, c2)
    requires KeyOf(a, c1) == KeyOf(a, c2)
    ensures c1 == c2
  {
    HashInjective(a, c1.x, c1.y, c1.z, c2.x, c2.y, c2.z);
  }

  /** `setChunk` on a coordinate of the grid box keeps the cache coherent with storage. */
  lemma SetChunkCoherent<V>(g: Grid<V>, c: Coord, data: V)
    requires Valid(g) && Coherent(g) && Fits(g.chunkAmount) && InGrid(g.chunkAmount, c)
    ensures Coherent(SetChunk(g, c, data))
  {
    var r := SetChunk(g, c, data);
    var a := g.chunkAmount;
    forall c' | InGrid(a, c') && KeyOf(a, c') in r.hashGrid
      ensures c' in r.store && r.store[c'] == r.hashGrid[KeyOf(a, c')]
    {
      if KeyOf(a, c') == KeyOf(a, c) {
        KeyInjective(a, c', c);
      }
    }
  }

  /** `getChunk` on a coordinate of the grid box keeps the cache coherent with storage. */
  lemma GetChunkCoherent<V>(g: Grid<V>, c: Coord)
    requires Valid(g) && Coherent(g) && Fits(g.chunkAmount) && InGrid(g.chunkAmount, c)
    ensures Coherent(GetChunk(g, c).grid)
  {
    var r := GetChunk(g, c).grid;
    var a := g.chunkAmount;
    forall c' | InGrid(a, c') && KeyOf(a, c') in r.hashGrid
      ensures c' in r.store && r.store[c'] == r.hashGrid[KeyOf(a, c')]
    {
      if KeyOf(a, c') == KeyOf(a, c) {
        KeyInjective(a, c', c);
      }
    }
  }

  /**
    The cache is transparent: in a coherent grid, `getChunk` of a coordinate of
    the box answers exactly what persistent storage holds for it.
   */
  lemma GetChunkMatchesStore<V>(g: Grid<V>, c: Coord)
    requires Valid(g) && Coherent(g) && InGrid(g.chunkAmount, c)
    ensures GetChunk(g, c).chunk == if c in g.store then Some(g.store[c]) else None
  {
  }

  /** The content `setChunk` left for `c` is still what storage and cache hold. */
  ghost predicate Remembers<V>(g: Grid<V>, c: Coord, d: V)
  {
    && c in g.store && g.store[c] == d
    && (KeyOf(g.chunkAmount, c) in g.hashGrid ==> g.hashGrid[KeyOf(g.chunkAmount, c)] == d)
  }

  /** One operation on another coordinate of the box does not disturb what is remembered for `c`. */
  lemma StepRemembers<V>(g: Grid<V>, c: Coord, d: V, op: Op<V>)
    requires Valid(g) && Fits(g.chunkAmount) && InGrid(g.chunkAmount, c) && Remembers(g, c, d)
    requires OpInGrid(g.chunkAmount, op) && !(op.SetOp? && op.at == c)
    ensures Remembers(Step(g, op), c, d)
  {
    var a := g.chunkAmount;
    if (op.SetOp? || op.GetOp?) && KeyOf(a, op.at) == KeyOf(a, c) {
      KeyInjective(a, op.at, c);
    }
  }

  /** Operations on other coordinates of the box never disturb what is remembered for `c`. */
  lemma {:induction false} RunRemembers<V>(g: Grid<V>, c: Coord, d: V, ops: seq<Op<V>>)
    requires Valid(g) && Fits(g.chunkAmount) && InGrid(g.chunkAmount, c) && Remembers(g, c, d)
    requires forall n :: 0 <= n < |ops| ==> OpInGrid(g.chunkAmount, ops[n])
    requires forall n :: 0 <= n < |ops| ==> !(ops[n].SetOp? && ops[n].at == c)
    ensures Remembers(Run(g, ops), c, d)
    decreases |ops|
  {
    if |ops| > 0 {
      StepRemembers(g, c, d, ops[0]);
      var next := Step(g, ops[0]);
      assert forall n :: 0 <= n < |ops[1..]| ==> ops[1..][n] == ops[n + 1];
      RunRemembers(next, c, d, ops[1..]);
    }
  }

  /**
    `setChunk` then `getChunk` on the same coordinate of the grid box returns
    the stored data, whatever operations on other coordinates of the box came
    in between, even when the chunk was evicted from the cache meanwhile.
   */
  lemma SetThenGet<V>(g: Grid<V>, c: Coord, d: V, ops: seq<Op<V>>)
    requires Valid(g) && Fits(g.chunkAmount) && InGrid(g.chunkAmount, c)
    requires forall n :: 0 <= n < |ops| ==> OpInGrid(g.chunkAmount, ops[n])
    requires forall n :: 0 <= n < |ops| ==> !(ops[n].SetOp? && ops[n].at == c)
    ensures GetChunk(Run(SetChunk(g, c, d), ops), c).chunk == Some(d)
  {
    var s := SetChunk(g, c, d);
    RunRemembers(s, c, d, ops);
  }

  /**
    Outside the grid box two coordinates can share a key: with amounts
    (2, 2, 2), chunk (0, 0, 2) and chunk (0, 1, 0) both hash to 2, so after
    `setChunk` on the first, `getChunk` on the second answers its content
    although storage holds nothing for it.
   */
  lemma OutOfBoxAliases<V>(d: V, box: BoundingBox)
    ensures var g := SetChunk(Create(map[], 4, box, 1.0, Amount(2, 2, 2)), Coord("mesh", 0, 0, 2), d);
      && Coord("mesh", 0, 1, 0) !in g.store
      && GetChunk(g, Coord("mesh", 0, 1, 0)).chunk == Some(d)
  {
    var a := Amount(2, 2, 2);
    var c1, c2 := Coord("mesh", 0, 0, 2), Coord("mesh", 0, 1, 0);
    HashValueWraps(a, 0, 0, 2);
    HashValueInBox(a, 0, 1, 0);
    assert KeyOf(a, c1) == KeyOf(a, c2);
    var g := SetChunk(Create(map[], 4, box, 1.0, a), c1, d);
    assert g.hashGrid[KeyOf(a, c1)] == d;
  }

  /**
    `setChunkAmount` does not rehash the cache: after changing the amounts
    from (2, 2, 2) to (2, 1, 2), the chunk cached for (0, 1, 0) is answered
    for (1, 0, 0), whose stored content differs.
   */
  lemma ChunkAmountChangeKeepsOldKeys<V>(d: V, e: V, box: BoundingBox)
    requires d != e
    ensures var g := Create(map[Coord("mesh", 0, 1, 0) := d, Coord("mesh", 1, 0, 0) := e], 4, box, 1.0, Amount(2, 2, 2));
      var r := SetChunkAmount(GetChunk(g, Coord("mesh", 0, 1, 0)).grid, Amount(2, 1, 2));
      && r.store[Coord("mesh", 1, 0, 0)] == e
      && GetChunk(r, Coord("mesh", 1, 0, 0)).chunk == Some(d)
  {
    var a, b := Amount(2, 2, 2), Amount(2, 1, 2);
    var c1, c2 := Coord("mesh", 0, 1, 0), Coord("mesh", 1, 0, 0);
    HashValueInBox(a, 0, 1, 0);
    HashValueInBox(b, 1, 0, 0);
    assert KeyOf(a, c1) == KeyOf(b, c2);
    var g := Create(map[c1 := d, c2 := e], 4, box, 1.0, a);
    var loaded := GetChunk(g, c1).grid;
    assert loaded.hashGrid[KeyOf(a, c1)] == d;
  }
}
