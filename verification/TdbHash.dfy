/**
 tdb as a map: hash chains of records on top of the space allocator (tdb_find, tdb_fetch,
 tdb_store, tdb_delete), dead records included.
 */
module TdbHash {
  import opened Bytes
  import opened TdbFreelist
  import opened TdbWords
  import opened Wrappers

  const TDB_DEAD_MAGIC := 0xFEE1_DEAD

  type Data = seq<Byte>

  /** What a record holds: its capacity, its key and data, the full hash, and whether it is only a dead record. */
  datatype Entry = Entry(recLen: nat, key: Data, data: Data, hash: nat, dead: bool)

  type Entries = map<nat, Entry>
  type Chains = seq<seq<nat>>

  /** TDB_HASH_TOP: the word that holds the head of chain b. */
  function HeadOf(b: nat): nat {
    FREELIST_TOP + 4 * (b + 1)
  }

  /** BUCKET: the chain a hash belongs to. */
  function Bucket(n: nat, hash: nat): (b: nat)
    requires n > 0
    ensures b < n
  {
    hash % n
  }

  // ---------- records ----------

  ghost predicate HeaderShows(mem: Words, o: nat, e: Entry) {
    && Get(mem, o + 4) == e.recLen && Get(mem, o + 8) == |e.key| && Get(mem, o + 12) == |e.data|
    && Get(mem, o + 16) == e.hash && Get(mem, o + 20) == (if e.dead then TDB_DEAD_MAGIC else TDB_MAGIC)
  }

  /** The entry in the bytes of its record: the header, then key and data, which leave room for the size at the end. */
  ghost predicate RepAt(mem: Words, o: nat, e: Entry) {
    && HeaderShows(mem, o, e)
    && |e.key| + |e.data| + 4 <= e.recLen
    && Holds(mem, o + HEADER, e.key + e.data)
  }

  /** Every entry is written in its record. */
  ghost predicate Rep(mem: Words, entries: Entries) {
    forall o :: o in entries ==> RepAt(mem, o, entries[o])
  }

  ghost predicate Chained(mem: Words, chains: Chains) {
    forall b :: 0 <= b < |chains| ==> Linked(mem, HeadOf(b), chains[b])
  }

  /** Each entry is in the chain of its hash, and no key has two live entries. */
  ghost predicate Filed(entries: Entries, chains: Chains, hashFn: Data -> nat) {
    && |chains| > 0
    && (forall b, o :: 0 <= b < |chains| && o in chains[b] ==> o in entries && Bucket(|chains|, entries[o].hash) == b)
    && (forall o :: o in entries ==>
        o in chains[Bucket(|chains|, entries[o].hash)] && entries[o].hash == hashFn(entries[o].key))
    && UniqueKeys(entries)
  }

  ghost predicate UniqueKeys(entries: Entries) {
    forall o, p ::
      (o in entries && p in entries && !entries[o].dead && !entries[p].dead && entries[o].key == entries[p].key) ==>
        o == p
  }

  /** The allocated records are exactly the entries. */
  ghost predicate Sizes(entries: Entries, used: map<nat, nat>) {
    && (forall o :: o in entries <==> o in used)
    && (forall o :: o in entries ==> used[o] == entries[o].recLen + HEADER)
  }

  ghost predicate Db(h: Heap, entries: Entries, chains: Chains, hashFn: Data -> nat) {
    && Sound(h, {}) && h.data == DataStart(|chains|)
    && Rep(h.mem, entries) && Chained(h.mem, chains) && Filed(entries, chains, hashFn) && Sizes(entries, Used(h, {}))
  }

  // ---------- the map ----------

  ghost predicate Live(entries: Entries, o: nat) {
    o in entries && !entries[o].dead
  }

  /** What the database maps keys to. */
  ghost function View(entries: Entries): map<Data, Data>
    requires UniqueKeys(entries)
  {
    map o | o in entries && Live(entries, o) :: entries[o].key := entries[o].data
  }

  /** What a map binds a key to. */
  function Bound(m: map<Data, Data>, key: Data): Option<Data> {
    if key in m then Some(m[key]) else None
  }

  lemma ViewAt(entries: Entries, o: nat)
    requires UniqueKeys(entries) && Live(entries, o)
    ensures entries[o].key in View(entries) && View(entries)[entries[o].key] == entries[o].data
  {
  }

  lemma NotInView(entries: Entries, key: Data)
    requires UniqueKeys(entries) && forall o :: Live(entries, o) ==> entries[o].key != key
    ensures key !in View(entries)
  {
  }

  lemma InView(entries: Entries, key: Data) returns (o: nat)
    requires UniqueKeys(entries) && key in View(entries)
    ensures Live(entries, o) && entries[o].key == key
  {
    o :| Live(entries, o) && entries[o].key == key;
  }

  /** The map `m` holds exactly the live entries. */
  ghost predicate Shows(entries: Entries, m: map<Data, Data>) {
    && (forall o :: Live(entries, o) ==> entries[o].key in m && m[entries[o].key] == entries[o].data)
    && (forall k :: k in m ==> HasKey(entries, k))
  }

  ghost predicate HasKey(entries: Entries, key: Data) {
    exists o :: Live(entries, o) && entries[o].key == key
  }

  lemma ViewShows(entries: Entries, m: map<Data, Data>)
    requires UniqueKeys(entries)
    ensures Shows(entries, View(entries))
    ensures Shows(entries, m) ==> m == View(entries)
  {
    hide View, UniqueKeys;
    forall k | k in View(entries)
      ensures HasKey(entries, k)
    {
      var o := InView(entries, k);
    }
    forall o | Live(entries, o)
      ensures entries[o].key in View(entries) && View(entries)[entries[o].key] == entries[o].data
    {
      ViewAt(entries, o);
    }
    if Shows(entries, m) {
      ShowsOne(entries, m, View(entries));
    }
  }

  lemma ShowsOne(entries: Entries, m: map<Data, Data>, m': map<Data, Data>)
    requires Shows(entries, m) && Shows(entries, m')
    ensures m == m'
  {
    hide View, Live;
    forall k
      ensures k in m <==> k in m'
      ensures k in m && k in m' ==> m[k] == m'[k]
    {
    }
  }

  /** A live entry added, or written over one with the same key, a dead one, or none. */
  lemma ViewPut(entries: Entries, o: nat, e: Entry)
    requires UniqueKeys(entries) && !e.dead
    requires forall p :: Live(entries, p) && p != o ==> entries[p].key != e.key
    requires Live(entries, o) ==> entries[o].key == e.key
    ensures UniqueKeys(entries[o := e]) && View(entries[o := e]) == View(entries)[e.key := e.data]
  {
    hide View;
    var entries', m := entries[o := e], View(entries)[e.key := e.data];
    assert forall p :: Live(entries', p) <==> p == o || Live(entries, p);
    assert UniqueKeys(entries');
    ViewShows(entries, View(entries));
    hide UniqueKeys;
    forall k | k in m
      ensures HasKey(entries', k)
    {
      if k == e.key {
        assert Live(entries', o) && entries'[o].key == k;
      } else {
        assert HasKey(entries, k);
        var p :| Live(entries, p) && entries[p].key == k;
        assert Live(entries', p) && entries'[p].key == k;
      }
    }
    assert Shows(entries', m);
    hide Shows;
    ViewShows(entries', m);
  }

  /** A live entry removed, or marked dead. */
  lemma ViewDrop(entries: Entries, entries': Entries, o: nat)
    requires UniqueKeys(entries) && Live(entries, o)
    requires forall p :: Live(entries', p) <==> Live(entries, p) && p != o
    requires forall p :: Live(entries', p) ==> p in entries && entries'[p] == entries[p]
    ensures UniqueKeys(entries') && View(entries') == View(entries) - {entries[o].key}
  {
    hide View;
    var m := View(entries) - {entries[o].key};
    LiveUnique(entries');
    ViewShows(entries, View(entries));
    forall k | k in m
      ensures HasKey(entries', k)
    {
      assert HasKey(entries, k);
      var p :| Live(entries, p) && entries[p].key == k;
      assert Live(entries', p) && entries'[p].key == k;
    }
    assert Shows(entries', m);
    hide Shows, UniqueKeys;
    ViewShows(entries', m);
  }

  lemma LiveUnique(entries: Entries)
    requires forall p, q :: Live(entries, p) && Live(entries, q) && entries[p].key == entries[q].key ==> p == q
    ensures UniqueKeys(entries)
  {
  }

  /** Dead entries removed or changed to other dead ones do not show. */
  lemma ViewSame(entries: Entries, entries': Entries)
    requires UniqueKeys(entries)
    requires forall p :: Live(entries', p) <==> Live(entries, p)
    requires forall p :: Live(entries', p) ==> p in entries && entries'[p] == entries[p]
    ensures UniqueKeys(entries') && View(entries') == View(entries)
  {
    hide View;
    LiveUnique(entries');
    ViewShows(entries, View(entries));
    forall k | k in View(entries)
      ensures HasKey(entries', k)
    {
      assert HasKey(entries, k);
      var p :| Live(entries, p) && entries[p].key == k;
      assert Live(entries', p) && entries'[p].key == k;
    }
    assert Shows(entries', View(entries));
    hide Shows, UniqueKeys;
    ViewShows(entries', View(entries));
  }

  // ---------- what other changes leave alone ----------

  /** An entry depends on the words of its record up to the size at the end. */
  lemma RepAtSame(mem: Words, mem': Words, o: nat, e: Entry)
    requires RepAt(mem, o, e) && forall w: int :: o < w < TailOf(o, HEADER + e.recLen) ==> Get(mem', w) == Get(mem, w)
    ensures RepAt(mem', o, e)
  {
    hide Get, Holds;
    HeldStays(mem, mem', o + HEADER, e.key + e.data);
  }

  lemma RepKept(mem: Words, mem': Words, entries: Entries, used: map<nat, nat>, data: nat)
    requires Rep(mem, entries) && Kept(mem, mem', used, data)
    requires forall o :: o in entries ==> o in used && used[o] == entries[o].recLen + HEADER
    ensures Rep(mem', entries)
  {
    hide Get, Kept, RepAt;
    forall o | o in entries
      ensures RepAt(mem', o, entries[o])
    {
      RepAtKept(mem, mem', o, entries[o], used, data);
    }
  }

  lemma RepAtKept(mem: Words, mem': Words, o: nat, e: Entry, used: map<nat, nat>, data: nat)
    requires RepAt(mem, o, e) && Kept(mem, mem', used, data) && o in used && used[o] == e.recLen + HEADER
    ensures RepAt(mem', o, e)
  {
    hide Get, Kept, RepAt;
    forall w: int | o < w < TailOf(o, HEADER + e.recLen)
      ensures Get(mem', w) == Get(mem, w)
    {
      KeptWord(mem, mem', used, data, o, w);
    }
    RepAtSame(mem, mem', o, e);
  }

  lemma HeadInside(b: nat, n: nat)
    requires b < n
    ensures FREELIST_TOP < HeadOf(b) && HeadOf(b) + 4 <= DataStart(n)
  {
  }

  lemma ChainsKept(mem: Words, mem': Words, chains: Chains, used: map<nat, nat>, data: nat)
    requires Chained(mem, chains) && Kept(mem, mem', used, data) && data == DataStart(|chains|)
    requires forall b, o :: 0 <= b < |chains| && o in chains[b] ==> o in used && used[o] > 0
    ensures Chained(mem', chains)
  {
    forall b | 0 <= b < |chains|
      ensures Linked(mem', HeadOf(b), chains[b])
    {
      HeadInside(b, |chains|);
      ChainKept(mem, mem', HeadOf(b), chains[b], used, data);
    }
  }

  lemma ChainKept(mem: Words, mem': Words, top: nat, list: seq<nat>, used: map<nat, nat>, data: nat)
    requires Linked(mem, top, list) && Kept(mem, mem', used, data) && top < data && top != FREELIST_TOP
    requires forall o :: o in list ==> o in used && used[o] > 0
    ensures Linked(mem', top, list)
  {
    hide Get;
    forall i | 0 <= i <= |list|
      ensures Get(mem', PtrTo(top, list, i)) == Get(mem, PtrTo(top, list, i))
    {
      if i > 0 {
        assert list[i - 1] in list;
        KeptWord(mem, mem', used, data, list[i - 1], list[i - 1]);
      }
    }
  }

  /** A pointer word written: no header field and no byte of a record is in one. */
  lemma RepPointer(h: Heap, entries: Entries, x: nat, v: nat)
    requires Tiled(h) && Rep(h.mem, entries) && (x in h.starts || x < h.data)
    requires forall o :: o in entries ==> o in h.starts && h.starts[o] == entries[o].recLen + HEADER
    ensures Rep(h.mem[x := v], entries)
  {
    hide Tiled, RepAt;
    forall o | o in entries
      ensures RepAt(h.mem[x := v], o, entries[o])
    {
      StartsApart(h, o, x);
      RepAtSame(h.mem, h.mem[x := v], o, entries[o]);
    }
  }

  // ---------- chains ----------

  /** The chains with chain b replaced. */
  lemma ChainedBut(mem: Words, mem': Words, chains: Chains, b: nat, list: seq<nat>, x: nat)
    requires b < |chains| && Chained(mem, chains) && Linked(mem', HeadOf(b), list)
    requires forall w: int {:trigger Get(mem', w)} :: w != x ==> Get(mem', w) == Get(mem, w)
    requires forall c :: 0 <= c < |chains| && c != b ==> x != HeadOf(c) && x !in chains[c]
    ensures Chained(mem', chains[b := list])
  {
    var chains' := chains[b := list];
    forall c | 0 <= c < |chains|
      ensures Linked(mem', HeadOf(c), chains'[c])
    {
      if c != b {
        assert Linked(mem, HeadOf(c), chains[c]);
        OneWord(mem, mem', HeadOf(c), chains[c], x);
      }
    }
  }

  lemma OneWord(mem: Words, mem': Words, top: nat, list: seq<nat>, x: nat)
    requires Linked(mem, top, list) && x != top && x !in list
    requires forall w: int {:trigger Get(mem', w)} :: w != x ==> Get(mem', w) == Get(mem, w)
    ensures Linked(mem', top, list)
  {
    hide Get;
    forall i | 0 <= i <= |list|
      ensures Get(mem', PtrTo(top, list, i)) == Get(mem, PtrTo(top, list, i))
    {
    }
  }

  /** Element i of chain b and the word that points to it. */
  lemma ChainAt(h: Heap, entries: Entries, chains: Chains, hashFn: Data -> nat, b: nat, i: nat)
    requires Db(h, entries, chains, hashFn) && b < |chains| && i <= |chains[b]|
    ensures var x := PtrTo(HeadOf(b), chains[b], i);
            && Get(h.mem, x) == Elem(chains[b], i) && x + 4 <= h.size
            && (x in Used(h, {}) || (x < h.data && x != FREELIST_TOP))
    ensures i < |chains[b]| ==>
              var o := chains[b][i];
              && o in entries && Bucket(|chains|, entries[o].hash) == b && o != 0 && o + HEADER <= h.size
              && RepAt(h.mem, o, entries[o]) && o in h.starts && h.starts[o] == entries[o].recLen + HEADER
              && o in Used(h, {})
              && o + HEADER + entries[o].recLen <= h.size
    ensures Elem(chains[b], i) != 0 ==> i < |chains[b]|
  {
    hide Sound, Get, Used, RepAt;
    HeadInside(b, |chains|);
    SizeAligned(h);
    assert Linked(h.mem, HeadOf(b), chains[b]);
    if i < |chains[b]| {
      assert chains[b][i] in chains[b];
      UsedRecord(h, chains[b][i]);
    }
    if i > 0 {
      assert chains[b][i - 1] in chains[b];
      UsedRecord(h, chains[b][i - 1]);
    }
  }

  lemma UsedRecord(h: Heap, o: nat)
    requires Sound(h, {}) && o in Used(h, {})
    ensures o in h.starts && Used(h, {})[o] == h.starts[o] && o >= h.data > FREELIST_TOP && o + h.starts[o] <= h.size
    ensures h.starts[o] >= HEADER + 4
  {
    hide Sound;
    RecordIn(h, {}, o);
  }

  // ---------- what the operations do to the chains ----------

  /** Chain b without its element i, which stays allocated for the moment. */
  lemma Unlinked(h: Heap, entries: Entries, chains: Chains, hashFn: Data -> nat, b: nat, i: nat)
    requires Db(h, entries, chains, hashFn) && b < |chains| && i < |chains[b]|
    ensures var o, mem' := chains[b][i], h.mem[PtrTo(HeadOf(b), chains[b], i) := Elem(chains[b], i + 1)];
            var entries', chains' := entries - {o}, chains[b := Without(chains[b], i)];
            && Sound(h.(mem := mem'), {}) && Used(h.(mem := mem'), {}) == Used(h, {})
            && Rep(mem', entries') && Chained(mem', chains') && Filed(entries', chains', hashFn)
  {
    hide Sound, Used, RepAt, Rep, Get, UniqueKeys, Linked, Chained, Filed, Without, Elem, PtrTo, Bucket, Sizes;
    var list := chains[b];
    var o, x, v := list[i], PtrTo(HeadOf(b), list, i), Elem(list, i + 1);
    ChainAt(h, entries, chains, hashFn, b, i);
    OtherPointer(h, x, v);
    PtrWord(h, entries, chains, hashFn, b, i);
    SoundTiled(h);
    RepPointer(h, entries, x, v);
    RepFewer(h.mem[x := v], entries, o);
    HeadNotIn(h, entries, chains, hashFn, b);
    LinkedAt(h.mem, chains, b);
    Unlink(h.mem, HeadOf(b), list, i);
    OneWordChanged(h.mem, x, v);
    ChainedBut(h.mem, h.mem[x := v], chains, b, Without(list, i), x);
    FiledUnique(entries, chains, hashFn);
    FewerUnique(entries, o);
    FewerFiled(entries, chains, hashFn, b, o, Without(list, i));
  }

  lemma LinkedAt(mem: Words, chains: Chains, b: nat)
    requires Chained(mem, chains) && b < |chains|
    ensures Linked(mem, HeadOf(b), chains[b])
  {
  }

  lemma FiledUnique(entries: Entries, chains: Chains, hashFn: Data -> nat)
    requires Filed(entries, chains, hashFn)
    ensures UniqueKeys(entries) && |chains| > 0
  {
  }

  lemma RepFewer(mem: Words, entries: Entries, o: nat)
    requires Rep(mem, entries)
    ensures Rep(mem, entries - {o})
  {
    hide RepAt;
  }

  lemma OneWordChanged(mem: Words, x: nat, v: nat)
    ensures forall w: int {:trigger Get(mem[x := v], w)} :: w != x ==> Get(mem[x := v], w) == Get(mem, w)
  {
  }

  lemma FewerUnique(entries: Entries, o: nat)
    requires UniqueKeys(entries)
    ensures UniqueKeys(entries - {o})
  {
  }

  lemma FewerFiled(entries: Entries, chains: Chains, hashFn: Data -> nat, b: nat, o: nat, list: seq<nat>)
    requires Filed(entries, chains, hashFn) && b < |chains| && UniqueKeys(entries - {o})
    requires forall p :: p in list <==> p in chains[b] && p != o
    requires o in entries && Bucket(|chains|, entries[o].hash) == b
    ensures Filed(entries - {o}, chains[b := list], hashFn)
  {
    hide UniqueKeys;
    var entries', chains' := entries - {o}, chains[b := list];
    forall c, p | 0 <= c < |chains'| && p in chains'[c]
      ensures p in entries' && Bucket(|chains'|, entries'[p].hash) == c
    {
      assert p in chains[c];
    }
    forall p | p in entries'
      ensures p in chains'[Bucket(|chains'|, entries'[p].hash)]
    {
      assert p in chains[Bucket(|chains|, entries[p].hash)];
    }
  }

  /** The word that points into a chain points into no other. */
  lemma PtrWord(h: Heap, entries: Entries, chains: Chains, hashFn: Data -> nat, b: nat, i: nat)
    requires Db(h, entries, chains, hashFn) && b < |chains| && i <= |chains[b]|
    ensures var x := PtrTo(HeadOf(b), chains[b], i);
            && (x in h.starts || x < h.data)
            && (forall o :: o in entries ==> o in h.starts && h.starts[o] == entries[o].recLen + HEADER)
            && (forall c :: 0 <= c < |chains| && c != b ==> x != HeadOf(c) && x !in chains[c])
  {
    hide Sound, Used, Rep, Chained, UniqueKeys;
    var x := PtrTo(HeadOf(b), chains[b], i);
    HeadInside(b, |chains|);
    if i > 0 {
      assert x in chains[b];
      UsedRecord(h, x);
    }
    forall o | o in entries
      ensures o in h.starts && o >= h.data && h.starts[o] == entries[o].recLen + HEADER
    {
      UsedRecord(h, o);
    }
    forall c | 0 <= c < |chains| && c != b
      ensures x != HeadOf(c) && x !in chains[c]
    {
      HeadInside(c, |chains|);
    }
  }

  lemma HeadNotIn(h: Heap, entries: Entries, chains: Chains, hashFn: Data -> nat, b: nat)
    requires Db(h, entries, chains, hashFn) && b < |chains|
    ensures HeadOf(b) !in chains[b]
  {
    hide Sound, Used, Rep, Chained, UniqueKeys;
    HeadInside(b, |chains|);
    if HeadOf(b) in chains[b] {
      UsedRecord(h, HeadOf(b));
    }
  }

  /** The record freed: the others, and all chains, are as they were. */
  lemma AfterFree(h1: Heap, h2: Heap, entries: Entries, chains: Chains, hashFn: Data -> nat, o: nat)
    requires Sound(h1, {}) && o in Used(h1, {}) && Preserved(h1, {o}, h2, {}) && h1.data == DataStart(|chains|)
    requires Rep(h1.mem, entries) && Chained(h1.mem, chains) && Filed(entries, chains, hashFn)
    requires Sizes(entries, Used(h1, {}) - {o})
    ensures Db(h2, entries, chains, hashFn)
  {
    hide Sound, Used, Kept, Rep, Chained, UniqueKeys;
    FreeingRecord(h1, h2, o);
    var used := Used(h1, {}) - {o};
    RepKept(h1.mem, h2.mem, entries, used, h1.data);
    ChainsKept(h1.mem, h2.mem, chains, used, h1.data);
  }

  /** The record of an entry rewritten in place, up to the size at its end: same size, same next record, same chain. */
  lemma Rewritten(h: Heap, entries: Entries, chains: Chains, hashFn: Data -> nat, o: nat, mem': Words, e: Entry)
    requires Db(h, entries, chains, hashFn) && o in entries && e.recLen == entries[o].recLen
    requires SameOutside(h.mem, mem', o, TailOf(o, HEADER + e.recLen)) && Get(mem', o) == Get(h.mem, o)
    requires RepAt(mem', o, e)
    requires Bucket(|chains|, e.hash) == Bucket(|chains|, entries[o].hash) && e.hash == hashFn(e.key)
    requires UniqueKeys(entries[o := e])
    ensures Db(h.(mem := mem'), entries[o := e], chains, hashFn)
  {
    hide Sound, Used, UniqueKeys, RepAt, Rep, Chained, Filed, Get, SameOutside, Bucket;
    UsedRecord(h, o);
    SizeWord(h, o);
    HeaderWords(mem', o, e);
    OwnRecord(h, o, mem');
    RepRewritten(h, mem', entries, o, e);
    ChainsOwnHeader(h, mem', entries, chains, hashFn, o);
    RefiledAt(entries, chains, hashFn, o, e);
  }

  lemma SizeWord(h: Heap, o: nat)
    requires Sound(h, {}) && o in Used(h, {})
    ensures o in h.starts && Get(h.mem, o + 4) == h.starts[o] - HEADER && o % 4 == 0 && h.starts[o] % 4 == 0
  {
    hide Sound, Used, Get;
    OwnSize(h, o);
  }

  lemma HeaderWords(mem: Words, o: nat, e: Entry)
    requires RepAt(mem, o, e)
    ensures Get(mem, o + 4) == e.recLen && Get(mem, o + 20) != TDB_FREE_MAGIC
  {
    hide Get, Holds;
  }

  lemma RepRewritten(h: Heap, mem': Words, entries: Entries, o: nat, e: Entry)
    requires Sound(h, {}) && o in Used(h, {}) && o in h.starts && Rep(h.mem, entries)
    requires forall p :: p in entries && p != o ==> p in Used(h, {}) && Used(h, {})[p] == entries[p].recLen + HEADER
    requires SameOutside(h.mem, mem', o, TailOf(o, h.starts[o])) && RepAt(mem', o, e)
    ensures Rep(mem', entries[o := e])
  {
    hide Sound, Used, RepAt, Get, SameOutside;
    SoundTiled(h);
    hide Tiled;
    UsedRecord(h, o);
    forall p | p in entries && p != o
      ensures RepAt(mem', p, entries[p])
    {
      UsedRecord(h, p);
      Disjoint(h, o, p);
      RepAtOutside(h.mem, mem', p, entries[p], o, h.starts[o]);
    }
  }

  lemma ChainsOwnHeader(h: Heap, mem': Words, entries: Entries, chains: Chains, hashFn: Data -> nat, o: nat)
    requires Db(h, entries, chains, hashFn) && o in h.starts
    requires SameOutside(h.mem, mem', o, TailOf(o, h.starts[o])) && Get(mem', o) == Get(h.mem, o)
    ensures Chained(mem', chains)
  {
    hide Db, SameOutside, Get, Linked;
    forall b | 0 <= b < |chains|
      ensures Linked(mem', HeadOf(b), chains[b])
    {
      ChainOwnHeader(h, mem', entries, chains, hashFn, b, o);
    }
  }

  lemma RefiledAt(entries: Entries, chains: Chains, hashFn: Data -> nat, o: nat, e: Entry)
    requires Filed(entries, chains, hashFn) && o in entries
    requires Bucket(|chains|, e.hash) == Bucket(|chains|, entries[o].hash)
    requires e.hash == hashFn(e.key) && UniqueKeys(entries[o := e])
    ensures Filed(entries[o := e], chains, hashFn)
  {
    hide UniqueKeys;
  }

  lemma SoundTiled(h: Heap)
    requires Sound(h, {})
    ensures Tiled(h)
  {
    hide Tiled;
  }

  lemma RepAtOutside(mem: Words, mem': Words, p: nat, e: Entry, o: nat, n: nat)
    requires RepAt(mem, p, e) && SameOutside(mem, mem', o, TailOf(o, n)) && (p + HEADER + e.recLen <= o || o + n <= p)
    ensures RepAt(mem', p, e)
  {
    hide Get, RepAt;
    RepAtSame(mem, mem', p, e);
  }

  lemma ChainOwnHeader(h: Heap, mem': Words, entries: Entries, chains: Chains, hashFn: Data -> nat, b: nat, o: nat)
    requires Db(h, entries, chains, hashFn) && b < |chains| && o in h.starts
    requires SameOutside(h.mem, mem', o, TailOf(o, h.starts[o])) && Get(mem', o) == Get(h.mem, o)
    ensures Linked(mem', HeadOf(b), chains[b])
  {
    hide Sound, Used, UniqueKeys, RepAt, Get, Filed, Rep, SameOutside, Tiled, PtrTo, Elem, Db;
    var top, list := HeadOf(b), chains[b];
    LinkedIs(h, entries, chains, hashFn, b);
    forall i | 0 <= i <= |list|
      ensures Get(mem', PtrTo(top, list, i)) == Get(h.mem, PtrTo(top, list, i))
    {
      PtrWord(h, entries, chains, hashFn, b, i);
      SoundTiled(h);
      NotInRecord(h, o, PtrTo(top, list, i));
      OutsideWord(h.mem, mem', o, TailOf(o, h.starts[o]), PtrTo(top, list, i));
    }
  }

  lemma OutsideWord(mem: Words, mem': Words, o: nat, hi: int, x: nat)
    requires SameOutside(mem, mem', o, hi) && Get(mem', o) == Get(mem, o) && (x <= o || x >= hi)
    ensures Get(mem', x) == Get(mem, x)
  {
  }

  lemma LinkedIs(h: Heap, entries: Entries, chains: Chains, hashFn: Data -> nat, b: nat)
    requires Db(h, entries, chains, hashFn) && b < |chains|
    ensures Linked(h.mem, HeadOf(b), chains[b]) && Sound(h, {})
  {
    hide Sound, Used, Rep, Filed, Linked, Get;
  }

  lemma NotInRecord(h: Heap, o: nat, x: nat)
    requires Tiled(h) && o in h.starts && (x in h.starts || x < h.data)
    ensures x <= o || x >= o + h.starts[o]
  {
    hide Tiled;
    StartsApart(h, o, x);
  }

  /** A new record, written but not linked yet. */
  lemma Prepared(h: Heap, h1: Heap, entries: Entries, chains: Chains, hashFn: Data -> nat, o: nat, mem': Words,
      e: Entry)
    requires Db(h, entries, chains, hashFn) && Allocated(h, h1, {}, o, HEADER + e.recLen)
    requires SameOutside(h1.mem, mem', o, TailOf(o, HEADER + e.recLen)) && RepAt(mem', o, e)
    ensures var h2 := h1.(mem := mem');
            && Sound(h2, {}) && Used(h2, {}) == Used(h, {})[o := HEADER + e.recLen] && o !in entries && o in h2.starts
            && Rep(h2.mem, entries[o := e]) && Chained(h2.mem, chains) && o >= h.data
  {
    hide Sound, Used, UniqueKeys, RepAt, Rep, Get, SameOutside, Kept, Chained, Filed, Bucket;
    UsedRecord(h1, o);
    SizeWord(h1, o);
    HeaderWords(mem', o, e);
    OwnRecord(h1, o, mem');
    UsedAll(h, entries);
    RepKept(h.mem, h1.mem, entries, Used(h, {}), h.data);
    ChainsUsed(entries, chains, hashFn, Used(h, {}));
    ChainsKept(h.mem, h1.mem, chains, Used(h, {}), h.data);
    RepRewritten(h1, mem', entries, o, e);
    ChainsApart(h1, mem', chains, o);
  }

  lemma ChainsUsed(entries: Entries, chains: Chains, hashFn: Data -> nat, used: map<nat, nat>)
    requires Filed(entries, chains, hashFn) && Sizes(entries, used)
    ensures forall b, p :: 0 <= b < |chains| && p in chains[b] ==> p in used && used[p] > 0
  {
    hide UniqueKeys, Bucket;
  }

  lemma ChainsApart(h: Heap, mem': Words, chains: Chains, o: nat)
    requires Sound(h, {}) && Chained(h.mem, chains) && o in h.starts && h.data == DataStart(|chains|)
    requires forall b, p :: 0 <= b < |chains| && p in chains[b] ==> p in Used(h, {}) && p != o
    requires SameOutside(h.mem, mem', o, TailOf(o, h.starts[o]))
    ensures Chained(mem', chains)
  {
    hide Sound, Used, SameOutside, Linked, Get;
    SoundTiled(h);
    hide Tiled;
    forall b | 0 <= b < |chains|
      ensures Linked(mem', HeadOf(b), chains[b])
    {
      HeadInside(b, |chains|);
      forall p | p in chains[b]
        ensures p in h.starts && p != o
      {
        UsedRecord(h, p);
      }
      RecordIn(h, {}, o);
      ChainApart(h, mem', HeadOf(b), chains[b], o);
    }
  }

  lemma UsedAll(h: Heap, entries: Entries)
    requires Sound(h, {}) && Sizes(entries, Used(h, {}))
    ensures forall o :: o in entries ==> o in Used(h, {}) && Used(h, {})[o] == entries[o].recLen + HEADER
  {
    hide Sound, Used;
  }

  lemma ChainApart(h: Heap, mem': Words, top: nat, list: seq<nat>, o: nat)
    requires Tiled(h) && Linked(h.mem, top, list) && o in h.starts && top < h.data && h.data <= o
    requires forall p :: p in list ==> p in h.starts && p != o
    requires SameOutside(h.mem, mem', o, TailOf(o, h.starts[o]))
    ensures Linked(mem', top, list)
  {
    hide Tiled, Get;
    forall i | 0 <= i <= |list|
      ensures Get(mem', PtrTo(top, list, i)) == Get(h.mem, PtrTo(top, list, i))
    {
      StartsApart(h, o, top);
      if i > 0 {
        assert list[i - 1] in list;
        Disjoint(h, o, list[i - 1]);
        assert PtrTo(top, list, i) == list[i - 1];
      } else {
        assert PtrTo(top, list, i) == top < o;
      }
    }
  }

  /** A prepared record put at the front of its chain. */
  lemma LinkedIn(h: Heap, h2: Heap, entries: Entries, chains: Chains, hashFn: Data -> nat, o: nat, e: Entry, b: nat)
    requires Filed(entries, chains, hashFn) && h2.data == DataStart(|chains|) && b < |chains|
    requires Sound(h2, {}) && o !in entries && o in Used(h2, {}) && Sizes(entries[o := e], Used(h2, {}))
    requires o in h2.starts
    requires Rep(h2.mem, entries[o := e]) && Chained(h2.mem, chains)
    requires Get(h2.mem, o) == Elem(chains[b], 0)
    requires b == Bucket(|chains|, e.hash) && e.hash == hashFn(e.key) && UniqueKeys(entries[o := e])
    ensures Db(h2.(mem := h2.mem[HeadOf(b) := o]), entries[o := e], chains[b := [o] + chains[b]], hashFn)
  {
    hide Sound, Used, UniqueKeys, RepAt, Rep, Get, Linked, Chained, Filed, Elem, Bucket;
    var x := HeadOf(b);
    HeadInside(b, |chains|);
    OtherPointer(h2, x, o);
    AllStarts(h2, entries[o := e]);
    SoundTiled(h2);
    hide Tiled;
    RepPointer(h2, entries[o := e], x, o);
    InChains(entries, chains, hashFn);
    LinkedAt(h2.mem, chains, b);
    assert forall p :: p in entries ==> p in entries[o := e];
    forall p | p in chains[b]
      ensures p in entries
    {
    }
    Relink(h2.mem, x, chains[b], o);
    OneWordChanged(h2.mem, x, o);
    OtherHeads(h2, entries, chains, hashFn, b);
    ChainedBut(h2.mem, h2.mem[x := o], chains, b, [o] + chains[b], x);
    MoreFiled(entries, chains, hashFn, o, e, b);
  }

  lemma AllStarts(h: Heap, entries: Entries)
    requires Sound(h, {}) && Sizes(entries, Used(h, {}))
    ensures forall p :: p in entries ==> p in h.starts && p >= h.data && h.starts[p] == entries[p].recLen + HEADER
  {
    hide Sound, Used;
    forall p | p in entries
      ensures p in h.starts && p >= h.data && h.starts[p] == entries[p].recLen + HEADER
    {
      UsedRecord(h, p);
    }
  }

  lemma InChains(entries: Entries, chains: Chains, hashFn: Data -> nat)
    requires Filed(entries, chains, hashFn)
    ensures forall b, p :: 0 <= b < |chains| && p in chains[b] ==> p in entries
  {
    hide UniqueKeys, Bucket;
  }

  lemma OtherHeads(h: Heap, entries: Entries, chains: Chains, hashFn: Data -> nat, b: nat)
    requires Filed(entries, chains, hashFn) && b < |chains| && h.data == DataStart(|chains|)
    requires forall p :: p in entries ==> p >= h.data
    ensures forall c :: 0 <= c < |chains| && c != b ==> HeadOf(b) != HeadOf(c) && HeadOf(b) !in chains[c]
  {
    HeadInside(b, |chains|);
    hide Filed;
    forall c | 0 <= c < |chains| && c != b
      ensures HeadOf(b) !in chains[c]
    {
      forall p | p in chains[c]
        ensures p in entries
      {
        InChains(entries, chains, hashFn);
      }
    }
  }

  lemma MoreFiled(entries: Entries, chains: Chains, hashFn: Data -> nat, o: nat, e: Entry, b: nat)
    requires Filed(entries, chains, hashFn) && o !in entries && b < |chains|
    requires b == Bucket(|chains|, e.hash) && e.hash == hashFn(e.key) && UniqueKeys(entries[o := e])
    ensures Filed(entries[o := e], chains[b := [o] + chains[b]], hashFn)
  {
    hide UniqueKeys;
    var entries', chains' := entries[o := e], chains[b := [o] + chains[b]];
    forall c, p | 0 <= c < |chains'| && p in chains'[c]
      ensures p in entries' && Bucket(|chains'|, entries'[p].hash) == c
    {
      assert p == o || p in chains[c];
    }
    forall p | p in entries'
      ensures p in chains'[Bucket(|chains'|, entries'[p].hash)]
    {
      assert p != o ==> p in chains[Bucket(|chains|, entries[p].hash)];
    }
  }

  // ---------- the code ----------

  datatype UpdateResult = Updated | Missing | TooSmall

  datatype StoreFlag = Replace | Insert | Modify

  /** What is known of a record read from a chain, and of its bytes. */
  lemma RecordRead(mem: Words, o: nat, e: Entry)
    requires RepAt(mem, o, e)
    ensures var rec := RecAt(mem, o);
            && rec.recLen == e.recLen && rec.keyLen == |e.key| && rec.dataLen == |e.data| && rec.fullHash == e.hash
            && (rec.magic == TDB_DEAD_MAGIC <==> e.dead) && |e.key| + |e.data| + 4 <= e.recLen
            && ReadBytes(mem, o + HEADER, |e.key|) == e.key
            && ReadBytes(mem, o + HEADER + |e.key|, |e.data|) == e.data
  {
    hide Get, Holds, ReadBytes;
    HeldParts(mem, o + HEADER, e.key, e.data);
    ReadsHeld(mem, o + HEADER, e.key);
    ReadsHeld(mem, o + HEADER + |e.key|, e.data);
  }

  /** Data written after the key of a record: header and size at the end stay, and the key is still there. */
  lemma DataWritten(mem: Words, o: nat, e: Entry, data: Data)
    requires RepAt(mem, o, e) && |e.key| + |data| + 4 <= e.recLen && o % 4 == 0
    ensures var mem' := PutBytes(mem, o + HEADER + |e.key|, data);
            && SameOutside(mem, mem', o + HEADER, TailOf(o, HEADER + e.recLen))
            && Holds(mem', o + HEADER, e.key + data)
  {
    hide Get, Holds, PutBytes;
    HeldParts(mem, o + HEADER, e.key, e.data);
    PutBytesAfter(mem, o + HEADER, e.key, data);
    PutBytesWords(mem, o + HEADER + |e.key|, data, o + HEADER, TailOf(o, HEADER + e.recLen));
  }

  /** A header written leaves the bytes after it, and everything before it, alone. */
  lemma HeaderWritten(mem: Words, o: nat, rec: ListStruct, s: Data)
    requires Holds(mem, o + HEADER, s) && o % 4 == 0
    ensures SameOutside(mem, Written(mem, o, rec), o, o + HEADER) && Holds(Written(mem, o, rec), o + HEADER, s)
  {
    hide ByteOf;
    forall i | 0 <= i < |s|
      ensures ByteAt(Written(mem, o, rec), o + HEADER + i) == s[i]
    {
      WordAbove(o + HEADER, o + HEADER + i);
      assert ByteAt(mem, o + HEADER + i) == s[i];
    }
  }

  /** Header, key and data written into a record. */
  lemma RecordPut(mem: Words, o: nat, rec: ListStruct, e: Entry)
    requires o % 4 == 0 && |e.key| + |e.data| + 4 <= e.recLen && !e.dead
    requires rec.recLen == e.recLen && rec.keyLen == |e.key| && rec.dataLen == |e.data| && rec.fullHash == e.hash
    requires rec.magic == TDB_MAGIC
    ensures var mem' := PutBytes(Written(mem, o, rec), o + HEADER, e.key + e.data);
            RepAt(mem', o, e) && SameOutside(mem, mem', o, TailOf(o, HEADER + e.recLen)) && Get(mem', o) == rec.next
  {
    hide Get, Holds, PutBytes, Written, RecAt;
    var m1 := Written(mem, o, rec);
    HeaderWritten(mem, o, rec, []) by { NothingHeld(mem, o + HEADER); }
    WrittenWords(mem, o, rec);
    PutBytesHeld(m1, o + HEADER, e.key + e.data);
    PutBytesWords(m1, o + HEADER, e.key + e.data, o + HEADER, TailOf(o, HEADER + e.recLen));
    var m2 := PutBytes(m1, o + HEADER, e.key + e.data);
    HeaderKept(m1, m2, o, TailOf(o, HEADER + e.recLen));
    HeaderFields(m2, o, rec, e);
    var hi := TailOf(o, HEADER + e.recLen);
    Outside(mem, m1, m2, o, hi, o, o + HEADER, o + HEADER, hi);
  }

  lemma NothingHeld(mem: Words, a: nat)
    ensures Holds(mem, a, [])
  {
  }

  lemma HeaderKept(m1: Words, m2: Words, o: nat, hi: int)
    requires SameOutside(m1, m2, o + HEADER, hi)
    ensures RecAt(m2, o) == RecAt(m1, o)
  {
    hide Get;
  }

  lemma HeaderFields(mem: Words, o: nat, rec: ListStruct, e: Entry)
    requires RecAt(mem, o) == rec && !e.dead
    requires rec.recLen == e.recLen && rec.keyLen == |e.key| && rec.dataLen == |e.data| && rec.fullHash == e.hash
    requires rec.magic == TDB_MAGIC
    ensures HeaderShows(mem, o, e) && Get(mem, o) == rec.next
  {
    hide Get;
  }

  /** Two changes inside a range are one. */
  lemma Outside(m0: Words, m1: Words, m2: Words, lo: int, hi: int, lo1: int, hi1: int, lo2: int, hi2: int)
    requires SameOutside(m0, m1, lo1, hi1) && SameOutside(m1, m2, lo2, hi2)
    requires lo <= lo1 && lo <= lo2 && hi1 <= hi && hi2 <= hi
    ensures SameOutside(m0, m2, lo, hi)
  {
    hide Get;
    forall w: int | w < lo || w >= hi
      ensures Get(m2, w) == Get(m0, w)
    {
      assert Get(m1, w) == Get(m0, w);
    }
  }

  lemma SameKeyUnique(entries: Entries, o: nat, e: Entry)
    requires UniqueKeys(entries) && o in entries && e.key == entries[o].key && (e.dead || !entries[o].dead)
    ensures UniqueKeys(entries[o := e])
  {
  }

  ghost predicate NotBefore(entries: Entries, list: seq<nat>, i: nat, key: Data)
    requires i <= |list|
  {
    forall j :: 0 <= j < i ==> !(Live(entries, list[j]) && entries[list[j]].key == key)
  }

  /** One step of a walk along a chain in search of a key. */
  lemma WalkAt(h: Heap, entries: Entries, chains: Chains, hashFn: Data -> nat, b: nat, i: nat, key: Data)
    requires Db(h, entries, chains, hashFn) && b < |chains| && i <= |chains[b]| && Elem(chains[b], i) != 0
    ensures i < |chains[b]|
    ensures var o := Elem(chains[b], i);
            var rec := RecAt(h.mem, o);
            && o == chains[b][i] && o in entries && o + HEADER + rec.keyLen <= h.size
            && RepAt(h.mem, o, entries[o])
            && rec.next == Elem(chains[b], i + 1) && (rec.magic == TDB_DEAD_MAGIC <==> entries[o].dead)
            && (rec.magic != TDB_DEAD_MAGIC && hashFn(key) == rec.fullHash && |key| == rec.keyLen &&
                ReadBytes(h.mem, o + HEADER, rec.keyLen) == key <==>
                Live(entries, o) && entries[o].key == key)
    ensures !(Live(entries, chains[b][i]) && entries[chains[b][i]].key == key) &&
              NotBefore(entries, chains[b], i, key) ==>
              NotBefore(entries, chains[b], i + 1, key)
  {
    hide Db, RepAt, Get, Bucket, PtrTo, Sound;
    ChainAt(h, entries, chains, hashFn, b, i);
    ChainAt(h, entries, chains, hashFn, b, i + 1);
    PtrNext(HeadOf(b), chains[b], i);
    RecordRead(h.mem, chains[b][i], entries[chains[b][i]]);
    HashOf(h, entries, chains, hashFn, chains[b][i]);
  }

  /** A record of a chain passes the tests of tdb_rec_read. */
  lemma ChainRecord(h: Heap, entries: Entries, chains: Chains, hashFn: Data -> nat, b: nat, i: nat)
    requires Db(h, entries, chains, hashFn) && b < |chains| && i < |chains[b]|
    ensures var o := chains[b][i];
            var rec := RecAt(h.mem, o);
            && o + HEADER <= h.size && (rec.magic == TDB_MAGIC || rec.magic == TDB_DEAD_MAGIC)
            && rec.next + HEADER <= h.size
  {
    hide Db, RepAt, Get, Bucket, PtrTo, Sound, Elem, RecAt;
    var o := chains[b][i];
    ChainAt(h, entries, chains, hashFn, b, i);
    ChainAt(h, entries, chains, hashFn, b, i + 1);
    ElemAt(chains[b], i);
    WalkAt(h, entries, chains, hashFn, b, i, []);
    RecordMagic(h.mem, o, entries[o]);
    NextRecord(h, entries, chains, hashFn, b, i + 1);
  }

  lemma NextRecord(h: Heap, entries: Entries, chains: Chains, hashFn: Data -> nat, b: nat, i: nat)
    requires Db(h, entries, chains, hashFn) && b < |chains| && 0 < i <= |chains[b]|
    ensures Elem(chains[b], i) + HEADER <= h.size
  {
    hide Db, RepAt, Get, Bucket, PtrTo, Sound;
    ChainAt(h, entries, chains, hashFn, b, i - 1);
    ChainAt(h, entries, chains, hashFn, b, i);
  }

  lemma RecordMagic(mem: Words, o: nat, e: Entry)
    requires RepAt(mem, o, e)
    ensures RecAt(mem, o).magic == if e.dead then TDB_DEAD_MAGIC else TDB_MAGIC
  {
    hide Get, Holds;
  }

  lemma NotAnywhere(h: Heap, entries: Entries, chains: Chains, hashFn: Data -> nat, b: nat, key: Data)
    requires Db(h, entries, chains, hashFn) && |chains| > 0 && b == Bucket(|chains|, hashFn(key))
    requires NotBefore(entries, chains[b], |chains[b]|, key)
    ensures forall o :: Live(entries, o) ==> entries[o].key != key
  {
    hide Db, Bucket;
    forall o | Live(entries, o)
      ensures entries[o].key != key
    {
      HashOf(h, entries, chains, hashFn, o);
    }
  }

  class Tdb {
    const alloc: Allocator
    const hashFn: Data -> nat
    const maxDead: nat
    ghost var entries: Entries
    ghost var chains: Chains

    /** A new database: no keys. */
    constructor (hashSize: nat, pageSize: nat, hashFn: Data -> nat, maxDead: nat)
      requires hashSize > 0 && pageSize > 0 && pageSize % 4 == 0
      ensures this.hashFn == hashFn && this.maxDead == maxDead && fresh(alloc)
      ensures Valid() && Contents() == map[] && Tidied()
    {
      hide Tidy, DeadIn;
      alloc := new Allocator(hashSize, pageSize);
      this.hashFn, this.maxDead := hashFn, maxDead;
      entries, chains := map[], seq(hashSize, _ => []);
      new;
      TidyEmpty(entries, chains, maxDead);
    }

    ghost predicate Valid()
      reads this, alloc
    {
      && alloc.Valid() && |chains| == alloc.hashSize > 0
      && Db(alloc.Now(), entries, chains, hashFn)
    }

    /** The bound tdb_set_max_dead puts on the dead records of a chain. */
    ghost predicate Tidied()
      reads this
    {
      Tidy(entries, chains, maxDead)
    }

    /** What the database maps keys to. */
    ghost function Contents(): map<Data, Data>
      requires Valid()
      reads this, alloc
    {
      View(entries)
    }

    method HashTop(hash: nat) returns (top: nat)
      requires alloc.hashSize > 0
      ensures top == HeadOf(Bucket(alloc.hashSize, hash))
    {
      top := HeadOf(Bucket(alloc.hashSize, hash));
    }

    /** tdb_rec_read of a record that a chain leads to; on a sound database it never refuses one. */
    method RecRead(off: nat, ghost b: nat, ghost i: nat) returns (ok: bool, rec: ListStruct)
      requires Valid() && b < |chains| && i < |chains[b]| && off == chains[b][i]
      ensures ok && rec == RecAt(alloc.mem, off)
    {
      hide Db, Get, RecAt;
      ChainRecord(alloc.Now(), entries, chains, hashFn, b, i);
      rec := alloc.ReadHeader(off);
      if rec.magic != TDB_MAGIC && rec.magic != TDB_DEAD_MAGIC {
        return false, rec;
      }
      ok := rec.next + HEADER <= alloc.mapSize;
    }

    /** tdb_find */
    method Find(key: Data, hash: nat) returns (ptr: nat, rec: ListStruct)
      requires Valid() && hash == hashFn(key)
      ensures ptr == 0 ==> forall o :: Live(entries, o) ==> entries[o].key != key
      ensures ptr != 0 ==> Live(entries, ptr) && entries[ptr].key == key && rec == RecAt(alloc.mem, ptr)
      ensures ptr != 0 ==> RepAt(alloc.mem, ptr, entries[ptr])
    {
      hide Db, RepAt, Get, Bucket, Elem, PtrTo, Sound, RecAt, Live, UniqueKeys;
      var top := HashTop(hash);
      ghost var b := Bucket(alloc.hashSize, hash);
      ghost var i := 0;
      ChainAt(alloc.Now(), entries, chains, hashFn, b, 0);
      PtrTop(top, chains[b]);
      ptr := alloc.OfsRead(top);
      rec := ListStruct(0, 0, 0, 0, 0, 0);
      while ptr != 0
        invariant i <= |chains[b]| && ptr == Elem(chains[b], i)
        invariant NotBefore(entries, chains[b], i, key)
        decreases |chains[b]| - i
      {
        WalkAt(alloc.Now(), entries, chains, hashFn, b, i, key);
        var ok;
        ok, rec := RecRead(ptr, b, i);
        if rec.magic != TDB_DEAD_MAGIC && hash == rec.fullHash && |key| == rec.keyLen {
          var stored := alloc.Read(ptr + HEADER, rec.keyLen);
          if stored == key {
            return;
          }
        }
        ptr, i := rec.next, i + 1;
      }
      ChainAt(alloc.Now(), entries, chains, hashFn, b, i);
      ElemAt(chains[b], i);
      NotAnywhere(alloc.Now(), entries, chains, hashFn, b, key);
    }

    /** tdb_fetch */
    method Fetch(key: Data) returns (r: Option<Data>)
      requires Valid()
      ensures r == Bound(Contents(), key)
    {
      hide Db, RepAt, Get, View, Sound, UniqueKeys, RecAt, ReadBytes, Used;
      DbUnique(alloc.Now(), entries, chains, hashFn);
      var ptr, rec := Find(key, hashFn(key));
      if ptr == 0 {
        NotInView(entries, key);
        return None;
      }
      RecordRead(alloc.mem, ptr, entries[ptr]);
      InRecord(alloc.Now(), entries, chains, hashFn, ptr);
      ViewAt(entries, ptr);
      var data := alloc.Read(ptr + HEADER + rec.keyLen, rec.dataLen);
      r := Some(data);
    }

    /**
     tdb_update_hash: new data in place, when the record is long enough for it and the size at its end;
     then nothing changes but header and body of that record.
     */
    method UpdateHash(key: Data, hash: nat, data: Data) returns (res: UpdateResult, ghost ptr: nat)
      requires Valid() && hash == hashFn(key)
      modifies this, alloc
      ensures Valid() && (res == Missing <==> key !in old(Contents()))
      ensures Contents() == if res == Updated then old(Contents())[key := data] else old(Contents())
      ensures res != Updated ==> alloc.mem == old(alloc.mem)
      ensures old(Tidied()) ==> Tidied()
      ensures res != Missing ==>
                && Live(old(entries), ptr) && old(entries)[ptr].key == key
                && (res == TooSmall <==> old(entries)[ptr].recLen < |key| + |data| + 4)
      ensures res == Updated ==> ptr in entries && entries[ptr].key == key
      ensures chains == old(chains) && entries.Keys == old(entries).Keys
      ensures res == Updated ==> SameOutside(old(alloc.mem), alloc.mem, ptr, TailOf(ptr, HEADER + entries[ptr].recLen))
    {
      hide Db, RepAt, Get, View, Sound, UniqueKeys, RecAt, Written, PutBytes, SameOutside, Tidy, Used, Bucket;
      var at, rec := Find(key, hash);
      ptr := at;
      DbUnique(alloc.Now(), entries, chains, hashFn);
      if at == 0 {
        NotInView(entries, key);
        return Missing, ptr;
      }
      ViewAt(entries, at);
      RecordRead(alloc.mem, at, entries[at]);
      if rec.recLen < |key| + |data| + 4 {
        return TooSmall, ptr;
      }
      InRecord(alloc.Now(), entries, chains, hashFn, at);
      ghost var e := entries[at].(data := data);
      InPlace(alloc.Now(), entries, chains, hashFn, at, rec, data);
      TidyLive(entries, chains, maxDead, at, e);
      alloc.Write(at + HEADER + rec.keyLen, data);
      if |data| != rec.dataLen {
        rec := rec.(dataLen := |data|);
        alloc.RecWrite(at, rec);
      }
      entries := entries[at := e];
      DbSound(alloc.Now(), entries, chains, hashFn);
      res := Updated;
    }

    /** tdb_do_delete: the record out of its chain, and its space freed. */
    method DoDelete(ptr: nat, rec: ListStruct, ghost k: nat)
      requires Valid() && ptr in entries && rec == RecAt(alloc.mem, ptr)
      requires var b := Bucket(|chains|, entries[ptr].hash); k < |chains[b]| && chains[b][k] == ptr
      modifies this`entries, this`chains, alloc
      ensures Valid() && entries == old(entries) - {ptr}
      ensures var b := Bucket(|chains|, old(entries)[ptr].hash); chains == old(chains)[b := Without(old(chains)[b], k)]
    {
      hide Db, RepAt, Get, Sound, UniqueKeys, Live, Used, Elem, PtrTo, Bucket, Without, Linked;
      ghost var h0, b := alloc.Now(), Bucket(|chains|, entries[ptr].hash);
      ghost var list := chains[b];
      InRecord(h0, entries, chains, hashFn, ptr);
      var top := HashTop(rec.fullHash);
      ChainAt(h0, entries, chains, hashFn, b, 0);
      PtrTop(top, list);
      var lastPtr := 0;
      var i := alloc.OfsRead(top);
      ghost var n := 0;
      while i != ptr
        invariant n <= k && i == Elem(list, n) && lastPtr == (if n == 0 then 0 else list[n - 1])
        invariant alloc.Now() == h0 && entries == old(entries) && chains == old(chains)
        decreases k - n
      {
        ChainAt(h0, entries, chains, hashFn, b, n);
        ChainAt(h0, entries, chains, hashFn, b, n + 1);
        ElemAt(list, n);
        ElemAt(list, k);
        PtrNext(top, list, n);
        var ok, lastRec := RecRead(i, b, n);
        lastPtr, i, n := i, lastRec.next, n + 1;
      }
      FoundOnce(h0, entries, chains, hashFn, b, n, k);
      ChainAt(h0, entries, chains, hashFn, b, k);
      ChainAt(h0, entries, chains, hashFn, b, k + 1);
      PtrNext(top, list, k);
      if k > 0 {
        ChainAt(h0, entries, chains, hashFn, b, k - 1);
        PtrNext(top, list, k - 1);
      }
      if lastPtr == 0 {
        lastPtr := top;
      }
      assert lastPtr == PtrTo(top, list, k);
      Unlinked(h0, entries, chains, hashFn, b, k);
      SizesFewer(h0, entries, chains, hashFn, ptr);
      alloc.OfsWrite(lastPtr, rec.next);
      ghost var h1 := alloc.Now();
      chains, entries := chains[b := Without(list, k)], entries - {ptr};
      OpenUsed(h1, ptr);
      alloc.Free(ptr, rec);
      AfterFree(h1, alloc.Now(), entries, chains, hashFn, ptr);
    }

    /** tdb_count_dead */
    method CountDead(hash: nat) returns (res: nat)
      requires Valid()
      ensures res == DeadIn(entries, chains[Bucket(|chains|, hash)])
    {
      hide Db, RepAt, Get, Sound, Elem, PtrTo, Bucket, RecAt;
      var top := HashTop(hash);
      ghost var b := Bucket(alloc.hashSize, hash);
      ghost var i := 0;
      ChainAt(alloc.Now(), entries, chains, hashFn, b, 0);
      PtrTop(top, chains[b]);
      var recPtr := alloc.OfsRead(top);
      res := 0;
      while recPtr != 0
        invariant i <= |chains[b]| && recPtr == Elem(chains[b], i)
        invariant res == DeadIn(entries, chains[b][..i])
        decreases |chains[b]| - i
      {
        WalkAt(alloc.Now(), entries, chains, hashFn, b, i, []);
        var ok, rec := RecRead(recPtr, b, i);
        if rec.magic == TDB_DEAD_MAGIC {
          res := res + 1;
        }
        assert chains[b][..i + 1][..i] == chains[b][..i];
        recPtr, i := rec.next, i + 1;
      }
      ChainAt(alloc.Now(), entries, chains, hashFn, b, i);
      ElemAt(chains[b], i);
      assert chains[b][..i] == chains[b];
    }

    /** tdb_purge_dead: all dead records of a chain freed. */
    method PurgeDead(hash: nat)
      requires Valid()
      modifies this`entries, this`chains, alloc
      ensures Valid() && SameLive(old(entries), entries) && |chains| == old(|chains|)
      ensures forall o :: o in chains[Bucket(|chains|, hash)] ==> !entries[o].dead
      ensures DeadIn(entries, chains[Bucket(|chains|, hash)]) == 0 && (old(Tidied()) ==> Tidied())
    {
      hide Db, RepAt, Get, Sound, Elem, PtrTo, Bucket, RecAt, Without, UniqueKeys, DeadIn, Tidy;
      var top := HashTop(hash);
      ghost var b := Bucket(alloc.hashSize, hash);
      ghost var i := 0;
      ChainAt(alloc.Now(), entries, chains, hashFn, b, 0);
      PtrTop(top, chains[b]);
      var recPtr := alloc.OfsRead(top);
      while recPtr != 0
        invariant Valid() && |chains| == old(|chains|)
        invariant i <= |chains[b]| && recPtr == Elem(chains[b], i)
        invariant SameLive(old(entries), entries) && (old(Tidied()) ==> Tidied())
        invariant forall j :: 0 <= j < i ==> Live(entries, chains[b][j])
        decreases |chains[b]| - i
      {
        WalkAt(alloc.Now(), entries, chains, hashFn, b, i, []);
        var ok, rec := RecRead(recPtr, b, i);
        var next := rec.next;
        if rec.magic == TDB_DEAD_MAGIC {
          ghost var before, list := entries, chains[b];
          ChainAt(alloc.Now(), entries, chains, hashFn, b, i);
          ListUnique(alloc.Now(), entries, chains, hashFn, b);
          TidyDeleted(entries, chains, maxDead, b, i);
          DoDelete(recPtr, rec, i);
          WithoutAt(list, i);
          SameLiveTwice(old(entries), before, entries, recPtr);
        } else {
          i := i + 1;
        }
        recPtr := next;
      }
      ChainAt(alloc.Now(), entries, chains, hashFn, b, i);
      ElemAt(chains[b], i);
      InChainsOf(alloc.Now(), entries, chains, hashFn);
      NoneDead(entries, chains[b]);
    }

    /** tdb_find_dead */
    method FindDead(hash: nat, length: nat) returns (ptr: nat, rec: ListStruct)
      requires Valid()
      ensures ptr != 0 ==> ptr in entries && entries[ptr].dead && rec == RecAt(alloc.mem, ptr) && rec.recLen >= length
      ensures ptr != 0 ==> Bucket(|chains|, entries[ptr].hash) == Bucket(|chains|, hash)
      ensures ptr == 0 ==> forall o :: o in chains[Bucket(|chains|, hash)] ==> !LongDead(entries, o, length)
    {
      hide Db, RepAt, Get, Sound, Elem, PtrTo, Bucket, RecAt;
      var top := HashTop(hash);
      ghost var b := Bucket(alloc.hashSize, hash);
      ghost var i := 0;
      ChainAt(alloc.Now(), entries, chains, hashFn, b, 0);
      PtrTop(top, chains[b]);
      ptr := alloc.OfsRead(top);
      rec := ListStruct(0, 0, 0, 0, 0, 0);
      while ptr != 0
        invariant i <= |chains[b]| && ptr == Elem(chains[b], i)
        invariant forall j :: 0 <= j < i ==> !LongDead(entries, chains[b][j], length)
        decreases |chains[b]| - i
      {
        WalkAt(alloc.Now(), entries, chains, hashFn, b, i, []);
        ChainAt(alloc.Now(), entries, chains, hashFn, b, i);
        InRecord(alloc.Now(), entries, chains, hashFn, ptr);
        var ok;
        ok, rec := RecRead(ptr, b, i);
        if rec.magic == TDB_DEAD_MAGIC && rec.recLen >= length {
          return;
        }
        ptr, i := rec.next, i + 1;
      }
      ChainAt(alloc.Now(), entries, chains, hashFn, b, i);
      ElemAt(chains[b], i);
    }

    /** tdb_delete_hash: the key's record freed, or only marked dead where dead records are allowed. */
    method DeleteHash(key: Data, hash: nat) returns (ok: bool, ghost ptr: nat)
      requires Valid() && hash == hashFn(key)
      modifies this, alloc
      ensures Valid() && (ok <==> key in old(Contents()))
      ensures Contents() == old(Contents()) - {key} && (old(Tidied()) ==> Tidied())
      ensures ok ==> Live(old(entries), ptr) && old(entries)[ptr].key == key
      ensures ok && maxDead == 0 ==> entries == old(entries) - {ptr}
      ensures ok && maxDead != 0 ==> Dead(entries, ptr)
      ensures ok && DeadIn(old(entries), old(chains)[Bucket(|old(chains)|, hash)]) < maxDead ==>
                entries == old(entries)[ptr := old(entries)[ptr].(dead := true)]
    {
      hide Db, RepAt, Get, View, Sound, UniqueKeys, RecAt, Written, Bucket, Used, SameLive, DeadIn, Tidy;
      ghost var entries0 := entries;
      DbUnique(alloc.Now(), entries, chains, hashFn);
      SameLiveRefl(entries);
      if maxDead != 0 {
        var dead := CountDead(hash);
        if dead >= maxDead {
          PurgeDead(hash);
        }
      }
      DbUnique(alloc.Now(), entries, chains, hashFn);
      LiveView(entries0, entries);
      var at, rec := Find(key, hash);
      ptr := at;
      if at == 0 {
        NotInView(entries, key);
        return false, ptr;
      }
      ViewAt(entries, at);
      SameLiveAt(entries0, entries, at);
      InRecord(alloc.Now(), entries, chains, hashFn, at);
      ghost var before := entries;
      if maxDead != 0 {
        rec := rec.(magic := TDB_DEAD_MAGIC);
        ghost var e := entries[ptr].(dead := true);
        Marked(alloc.Now(), entries, chains, hashFn, ptr, rec);
        EntryHash(alloc.Now(), entries, chains, hashFn, ptr);
        TidyMarked(alloc.Now(), entries, chains, hashFn, ptr, maxDead);
        alloc.RecWrite(at, rec);
        entries := entries[ptr := e];
        DbSound(alloc.Now(), entries, chains, hashFn);
      } else {
        ghost var k := InChain(alloc.Now(), entries, chains, hashFn, ptr);
        TidyDeleted(entries, chains, maxDead, Bucket(|chains|, entries[ptr].hash), k);
        DoDelete(at, rec, k);
      }
      ViewDrop(before, entries, ptr);
      ok := true;
    }

    /** tdb_delete */
    method Delete(key: Data) returns (ok: bool)
      requires Valid()
      modifies this, alloc
      ensures Valid() && (ok <==> key in old(Contents())) && Contents() == old(Contents()) - {key}
      ensures old(Tidied()) ==> Tidied()
    {
      ghost var ptr;
      ok, ptr := DeleteHash(key, hashFn(key));
    }

    /** tdb_store: insert, replace or modify. */
    method Store(key: Data, data: Data, flag: StoreFlag) returns (ok: bool)
      requires Valid()
      modifies this, alloc
      ensures Valid()
      ensures ok <==> (flag == Insert ==> key !in old(Contents())) && (flag == Modify ==> key in old(Contents()))
      ensures Contents() == if ok then old(Contents())[key := data] else old(Contents())
      ensures old(Tidied()) ==> Tidied()
      ensures forall o :: flag != Insert && Live(old(entries), o) && HoldsNew(old(entries)[o], key, data) ==>
                chains == old(chains) && entries.Keys == old(entries).Keys
    {
      hide Db, View, UniqueKeys, Sound, Tidy;
      var hash := hashFn(key);
      ghost var contents := Contents();
      DbUnique(alloc.Now(), entries, chains, hashFn);
      if flag == Insert {
        var ptr, rec := Find(key, hash);
        if ptr != 0 {
          ViewAt(entries, ptr);
          return false;
        }
        NotInView(entries, key);
      } else {
        var res;
        ghost var at;
        res, at := UpdateHash(key, hash, data);
        LiveOnly(old(entries), key, at);
        if res == Updated {
          return true;
        }
        if res == Missing && flag == Modify {
          return false;
        }
        var _, _ := DeleteHash(key, hash);
      }
      StoreNew(key, hash, data);
      assert (contents - {key})[key := data] == contents[key := data];
      assert key !in contents ==> contents - {key} == contents;
      ok := true;
    }

    /** The end of tdb_store, for a key that is not in the database: a dead record reused, or a new one. */
    method StoreNew(key: Data, hash: nat, data: Data)
      requires Valid() && hash == hashFn(key) && key !in Contents()
      modifies this, alloc
      ensures Valid() && Contents() == old(Contents())[key := data] && (old(Tidied()) ==> Tidied())
      ensures var b := Bucket(|old(chains)|, hash);
              forall o :: maxDead != 0 && o in old(chains)[b] && LongDead(old(entries), o, |key| + |data| + 4) ==>
                chains == old(chains) && entries.Keys == old(entries).Keys
    {
      hide Db, RepAt, Get, View, Sound, UniqueKeys, RecAt, Written, Bucket, Used, SameLive, PutBytes, Allocated,
           HeaderIs, NoFit, GoodFit, Elem, Tidy, DeadIn, LongDead;
      ghost var entries0 := entries;
      DbUnique(alloc.Now(), entries, chains, hashFn);
      var p := key + data;
      if maxDead != 0 {
        var ptr, rec := FindDead(hash, |p| + 4);
        if ptr != 0 {
          InRecord(alloc.Now(), entries, chains, hashFn, ptr);
          rec := rec.(keyLen := |key|, dataLen := |data|, fullHash := hash, magic := TDB_MAGIC);
          ghost var e := Entry(rec.recLen, key, data, hash, false);
          Reused(alloc.Now(), entries, chains, hashFn, ptr, rec, e);
          TidyLive(entries, chains, maxDead, ptr, e);
          alloc.RecWrite(ptr, rec);
          alloc.Write(ptr + HEADER, p);
          entries := entries[ptr := e];
          DbSound(alloc.Now(), entries, chains, hashFn);
          return;
        }
        PurgeDead(hash);
      } else {
        SameLiveRefl(entries);
      }
      LiveView(entries0, entries);
      ghost var h0 := alloc.Now();
      DbSound(h0, entries, chains, hashFn);
      var ptr, rec;
      ghost var expansions;
      ptr, rec, expansions := alloc.Allocate(|p|);
      var top := HashTop(hash);
      ghost var h1, b := alloc.Now(), Bucket(|chains|, hash);
      NewInside(h0, h1, chains, ptr, rec, b);
      var next := alloc.OfsRead(top);
      rec := rec.(next := next, keyLen := |key|, dataLen := |data|, fullHash := hash, magic := TDB_MAGIC);
      ghost var e := Entry(rec.recLen, key, data, hash, false);
      NewRecord(h0, h1, entries, chains, hashFn, ptr, rec, e, b);
      TidyNew(entries, chains, maxDead, b, ptr, e);
      alloc.RecWrite(ptr, rec);
      alloc.Write(ptr + HEADER, p);
      alloc.OfsWrite(top, ptr);
      entries, chains := entries[ptr := e], chains[b := [ptr] + chains[b]];
      DbSound(alloc.Now(), entries, chains, hashFn);
    }
  }

  /** An entry's hash is its key's, and it is in the chain of that hash. */
  lemma HashOf(h: Heap, entries: Entries, chains: Chains, hashFn: Data -> nat, o: nat)
    requires Db(h, entries, chains, hashFn) && o in entries
    ensures |chains| > 0 && entries[o].hash == hashFn(entries[o].key)
    ensures exists i ::
      0 <= i < |chains[Bucket(|chains|, entries[o].hash)]| && chains[Bucket(|chains|, entries[o].hash)][i] == o
    ensures UniqueKeys(entries)
  {
    hide Sound, Rep, Chained, Used, Bucket;
  }

  lemma DbUnique(h: Heap, entries: Entries, chains: Chains, hashFn: Data -> nat)
    requires Db(h, entries, chains, hashFn)
    ensures UniqueKeys(entries)
  {
    hide Sound, Rep, Chained, Used, Bucket, UniqueKeys;
  }

  /** New data of a length that fits: the database afterwards, with and without a new header. */
  lemma InPlace(h: Heap, entries: Entries, chains: Chains, hashFn: Data -> nat, o: nat, rec: ListStruct, data: Data)
    requires Db(h, entries, chains, hashFn) && Live(entries, o) && rec == RecAt(h.mem, o)
    requires |entries[o].key| + |data| + 4 <= rec.recLen && rec.keyLen == |entries[o].key|
    ensures var e, mem' := entries[o].(data := data), PutBytes(h.mem, o + HEADER + rec.keyLen, data);
            var mem'' := Written(mem', o, rec.(dataLen := |data|));
            && UniqueKeys(entries) && UniqueKeys(entries[o := e])
            && View(entries[o := e]) == View(entries)[entries[o].key := data]
            && (|data| == rec.dataLen ==> Db(h.(mem := mem'), entries[o := e], chains, hashFn))
            && Db(h.(mem := mem''), entries[o := e], chains, hashFn)
            && SameOutside(h.mem, mem', o, TailOf(o, HEADER + e.recLen))
            && SameOutside(h.mem, mem'', o, TailOf(o, HEADER + e.recLen))
  {
    hide Get, View, Sound, Used, Rep, Chained, Bucket, UniqueKeys, Db, RepAt, Written, PutBytes, SameOutside, TailOf,
         ReadBytes;
    var e := entries[o].(data := data);
    RepOf(h, entries, chains, hashFn, o);
    RecordRead(h.mem, o, entries[o]);
    NewData(entries, o, data);
    SizeWord(h, o);
    DataInPlace(h.mem, o, entries[o], data);
    var mem' := PutBytes(h.mem, o + HEADER + rec.keyLen, data);
    Rewritten(h, entries, chains, hashFn, o, Written(mem', o, rec.(dataLen := |data|)), e);
    if |data| == rec.dataLen {
      Rewritten(h, entries, chains, hashFn, o, mem', e);
    }
  }

  lemma NewData(entries: Entries, o: nat, data: Data)
    requires UniqueKeys(entries) && Live(entries, o)
    ensures var e := entries[o].(data := data);
            UniqueKeys(entries[o := e]) && View(entries[o := e]) == View(entries)[e.key := data]
  {
    hide View, UniqueKeys;
    LiveKeys(entries, o);
    ViewPut(entries, o, entries[o].(data := data));
  }

  /** The words of a record with new data, with and without a new header. */
  lemma DataInPlace(mem: Words, o: nat, e: Entry, data: Data)
    requires RepAt(mem, o, e) && |e.key| + |data| + 4 <= e.recLen && o % 4 == 0
    ensures var rec, mem' := RecAt(mem, o).(dataLen := |data|), PutBytes(mem, o + HEADER + |e.key|, data);
            var mem'', hi := Written(mem', o, rec), TailOf(o, HEADER + e.recLen);
            && SameOutside(mem, mem', o, hi) && Get(mem', o) == Get(mem, o)
            && (|data| == |e.data| ==> RepAt(mem', o, e.(data := data)))
            && SameOutside(mem, mem'', o, hi) && Get(mem'', o) == Get(mem, o) && RepAt(mem'', o, e.(data := data))
  {
    hide Get, Holds, PutBytes, Written, HeaderShows;
    var hi, kd := TailOf(o, HEADER + e.recLen), e.key + data;
    var mem' := PutBytes(mem, o + HEADER + |e.key|, data);
    DataWritten(mem, o, e, data);
    HeaderKept(mem, mem', o, hi);
    var rec := RecAt(mem, o).(dataLen := |data|);
    HeaderWritten(mem', o, rec, kd);
    WrittenWords(mem', o, rec);
    Outside(mem, mem', Written(mem', o, rec), o, hi, o + HEADER, hi, o, o + HEADER);
    Outside(mem, mem', mem', o, hi, o + HEADER, hi, hi, hi);
    NewLengthShows(mem, mem', o, e, data);
    NewLengthShows(mem, Written(mem', o, rec), o, e, data);
  }

  lemma NewLengthShows(mem: Words, mem': Words, o: nat, e: Entry, data: Data)
    requires HeaderShows(mem, o, e) && RecAt(mem', o).(dataLen := |data|) == RecAt(mem, o).(dataLen := |data|)
    ensures Get(mem', o) == Get(mem, o) && RecAt(mem, o).dataLen == |e.data|
    ensures RecAt(mem', o).dataLen == |data| ==> HeaderShows(mem', o, e.(data := data))
  {
    hide Get;
  }

  lemma LiveKeys(entries: Entries, o: nat)
    requires UniqueKeys(entries) && Live(entries, o)
    ensures forall p :: Live(entries, p) && p != o ==> entries[p].key != entries[o].key
  {
  }

  lemma WrittenWords(mem: Words, o: nat, rec: ListStruct)
    ensures RecAt(Written(mem, o, rec), o) == rec
  {
  }

  lemma RepOf(h: Heap, entries: Entries, chains: Chains, hashFn: Data -> nat, o: nat)
    requires Db(h, entries, chains, hashFn) && o in entries
    ensures RepAt(h.mem, o, entries[o]) && UniqueKeys(entries) && entries[o].hash == hashFn(entries[o].key)
    ensures o in Used(h, {}) && o in h.starts && h.starts[o] == entries[o].recLen + HEADER && o + h.starts[o] <= h.size
    ensures Sound(h, {})
    ensures |chains| > 0
  {
    hide Sound, RepAt, Chained, Used, Bucket, UniqueKeys;
    UsedRecord(h, o);
  }

  /** Facts needed to read or free the record of an entry. */
  lemma InRecord(h: Heap, entries: Entries, chains: Chains, hashFn: Data -> nat, o: nat)
    requires Db(h, entries, chains, hashFn) && o in entries
    ensures var rec := RecAt(h.mem, o);
            && o in Used(h, {}) && o in h.starts && o + HEADER + rec.recLen <= h.size
            && h.starts[o] == HEADER + rec.recLen
            && rec.keyLen + rec.dataLen + 4 <= rec.recLen
            && rec.fullHash == entries[o].hash && rec.recLen == entries[o].recLen && rec.magic != TDB_FREE_MAGIC
            && (rec.magic == TDB_DEAD_MAGIC <==> entries[o].dead)
  {
    hide Db, Get, Sound, Used;
    RepOf(h, entries, chains, hashFn, o);
    RecordRead(h.mem, o, entries[o]);
    HeaderWords(h.mem, o, entries[o]);
    UsedRecord(h, o);
  }

  lemma FoundOnce(h: Heap, entries: Entries, chains: Chains, hashFn: Data -> nat, b: nat, n: nat, k: nat)
    requires Db(h, entries, chains, hashFn) && b < |chains| && n <= k < |chains[b]|
    requires Elem(chains[b], n) == chains[b][k]
    ensures n == k
  {
    hide Sound, Rep, Filed, Used, Bucket, Get;
    LinkedAt(h.mem, chains, b);
  }

  lemma SizesFewer(h: Heap, entries: Entries, chains: Chains, hashFn: Data -> nat, o: nat)
    requires Db(h, entries, chains, hashFn)
    ensures Sizes(entries - {o}, Used(h, {}) - {o}) && h.data == DataStart(|chains|)
  {
    hide Sound, Rep, Filed, Chained, Used, Bucket;
  }

  lemma OpenUsed(h: Heap, o: nat)
    requires Sound(h, {}) && o in Used(h, {})
    ensures Sound(h, {o})
  {
    hide Sound, Used;
    Open(h, {}, o);
    assert {} + {o} == {o};
  }

  ghost function DeadIn(entries: Entries, list: seq<nat>): nat {
    if list == [] then 0
    else
      var o := list[|list| - 1];
      DeadIn(entries, list[..|list| - 1]) + if Dead(entries, o) then 1 else 0
  }

  /** No chain has more dead records than allowed. */
  ghost predicate Tidy(entries: Entries, chains: Chains, maxDead: nat) {
    forall b :: 0 <= b < |chains| ==> DeadIn(entries, chains[b]) <= maxDead
  }

  ghost predicate Dead(entries: Entries, o: nat) {
    o in entries && entries[o].dead
  }

  lemma SameLiveAt(entries: Entries, entries': Entries, o: nat)
    requires SameLive(entries, entries') && Live(entries', o)
    ensures Live(entries, o) && entries[o] == entries'[o]
  {
  }

  /** A key that is bound has one live record, and one that is not has none. */
  lemma LiveOnly(entries: Entries, key: Data, at: nat)
    requires UniqueKeys(entries) && (key in View(entries) ==> Live(entries, at) && entries[at].key == key)
    ensures forall o :: Live(entries, o) && entries[o].key == key ==> key in View(entries) && o == at
  {
    hide View, UniqueKeys;
    forall o | Live(entries, o) && entries[o].key == key
      ensures key in View(entries) && o == at
    {
      ViewAt(entries, o);
      LiveKeys(entries, o);
    }
  }

  /** The record of a key, with room for new data and the size at the end. */
  ghost predicate HoldsNew(e: Entry, key: Data, data: Data) {
    e.key == key && e.recLen >= |key| + |data| + 4
  }

  /** A dead record with `length` bytes after its header. */
  ghost predicate LongDead(entries: Entries, o: nat, length: nat) {
    Dead(entries, o) && entries[o].recLen >= length
  }

  lemma {:induction false} FewerDead(entries: Entries, entries': Entries, list: seq<nat>)
    requires forall o :: o in list && Dead(entries', o) ==> Dead(entries, o)
    ensures DeadIn(entries', list) <= DeadIn(entries, list)
  {
    if list != [] {
      FewerDead(entries, entries', list[..|list| - 1]);
    }
  }

  lemma {:induction false} NoneDead(entries: Entries, list: seq<nat>)
    requires forall o :: o in list ==> !Dead(entries, o)
    ensures DeadIn(entries, list) == 0
  {
    if list != [] {
      NoneDead(entries, list[..|list| - 1]);
    }
  }

  lemma {:induction false} DeadJoin(entries: Entries, a: seq<nat>, b: seq<nat>)
    ensures DeadIn(entries, a + b) == DeadIn(entries, a) + DeadIn(entries, b)
  {
    if b == [] {
      assert a + b == a;
    } else {
      DeadJoin(entries, a, b[..|b| - 1]);
      assert (a + b)[..|a + b| - 1] == a + b[..|b| - 1];
    }
  }

  /** One more dead record in a chain, and none in a chain that does not hold it. */
  lemma {:induction false} OneMoreDead(entries: Entries, entries': Entries, list: seq<nat>, ptr: nat)
    requires forall o :: o in list && o != ptr && Dead(entries', o) ==> Dead(entries, o)
    requires forall i, j :: 0 <= i < j < |list| ==> list[i] != list[j]
    ensures DeadIn(entries', list) <= DeadIn(entries, list) + if ptr in list then 1 else 0
  {
    if list != [] {
      var front := list[..|list| - 1];
      if list[|list| - 1] == ptr {
        FewerDead(entries, entries', front);
      } else {
        OneMoreDead(entries, entries', front, ptr);
      }
    }
  }

  lemma TidyFewer(entries: Entries, entries': Entries, chains: Chains, maxDead: nat)
    requires Tidy(entries, chains, maxDead) && forall o :: Dead(entries', o) ==> Dead(entries, o)
    ensures Tidy(entries', chains, maxDead)
  {
    hide DeadIn, Dead;
    forall b | 0 <= b < |chains|
      ensures DeadIn(entries', chains[b]) <= maxDead
    {
      FewerDead(entries, entries', chains[b]);
    }
  }

  lemma TidyEmpty(entries: Entries, chains: Chains, maxDead: nat)
    requires forall b :: 0 <= b < |chains| ==> chains[b] == []
    ensures Tidy(entries, chains, maxDead)
  {
  }

  lemma EntryHash(h: Heap, entries: Entries, chains: Chains, hashFn: Data -> nat, o: nat)
    requires Db(h, entries, chains, hashFn) && o in entries
    ensures entries[o].hash == hashFn(entries[o].key) && |chains| > 0
  {
    hide Sound, Rep, Chained, Used, Bucket, UniqueKeys;
  }

  lemma TidyWithout(entries: Entries, chains: Chains, maxDead: nat, b: nat, k: nat)
    requires Tidy(entries, chains, maxDead) && b < |chains| && k < |chains[b]|
    ensures Tidy(entries, chains[b := Without(chains[b], k)], maxDead)
  {
    hide DeadIn;
    var list := chains[b];
    assert list == list[..k] + ([list[k]] + list[k + 1..]);
    DeadJoin(entries, list[..k], [list[k]] + list[k + 1..]);
    DeadJoin(entries, [list[k]], list[k + 1..]);
    DeadJoin(entries, list[..k], list[k + 1..]);
  }

  /** A record taken out of its chain. */
  lemma TidyDeleted(entries: Entries, chains: Chains, maxDead: nat, b: nat, k: nat)
    requires b < |chains| && k < |chains[b]|
    ensures Tidy(entries, chains, maxDead) ==>
              Tidy(entries - {chains[b][k]}, chains[b := Without(chains[b], k)], maxDead)
  {
    if Tidy(entries, chains, maxDead) {
      TidyFewer(entries, entries - {chains[b][k]}, chains, maxDead);
      TidyWithout(entries - {chains[b][k]}, chains, maxDead, b, k);
    }
  }

  lemma TidyLive(entries: Entries, chains: Chains, maxDead: nat, ptr: nat, e: Entry)
    requires !e.dead
    ensures Tidy(entries, chains, maxDead) ==> Tidy(entries[ptr := e], chains, maxDead)
  {
    if Tidy(entries, chains, maxDead) {
      TidyFewer(entries, entries[ptr := e], chains, maxDead);
    }
  }

  /** A new live record at the head of a chain. */
  lemma TidyNew(entries: Entries, chains: Chains, maxDead: nat, b: nat, ptr: nat, e: Entry)
    requires b < |chains| && !e.dead
    ensures Tidy(entries, chains, maxDead) ==> Tidy(entries[ptr := e], chains[b := [ptr] + chains[b]], maxDead)
  {
    TidyLive(entries, chains, maxDead, ptr, e);
    NoneDead(entries[ptr := e], [ptr]);
    DeadJoin(entries[ptr := e], [ptr], chains[b]);
  }

  /** A record marked dead in a chain with room for one. */
  lemma TidyMarked(h: Heap, entries: Entries, chains: Chains, hashFn: Data -> nat, ptr: nat, maxDead: nat)
    requires Db(h, entries, chains, hashFn) && ptr in entries
    requires |chains| > 0 && DeadIn(entries, chains[Bucket(|chains|, entries[ptr].hash)]) < maxDead
    ensures Tidy(entries, chains, maxDead) ==> Tidy(entries[ptr := entries[ptr].(dead := true)], chains, maxDead)
  {
    hide Db, DeadIn, Dead, Bucket;
    var entries' := entries[ptr := entries[ptr].(dead := true)];
    forall b | 0 <= b < |chains| && Tidy(entries, chains, maxDead)
      ensures DeadIn(entries', chains[b]) <= maxDead
    {
      ListUnique(h, entries, chains, hashFn, b);
      OthersDead(entries, ptr);
      OneMoreDead(entries, entries', chains[b], ptr);
      if ptr in chains[b] {
        var i :| 0 <= i < |chains[b]| && chains[b][i] == ptr;
        ChainBucket(h, entries, chains, hashFn, b, i);
      }
    }
  }

  lemma OthersDead(entries: Entries, ptr: nat)
    requires ptr in entries
    ensures forall o :: o != ptr ==> (Dead(entries[ptr := entries[ptr].(dead := true)], o) <==> Dead(entries, o))
  {
  }

  lemma ChainBucket(h: Heap, entries: Entries, chains: Chains, hashFn: Data -> nat, b: nat, i: nat)
    requires Db(h, entries, chains, hashFn) && b < |chains| && i < |chains[b]|
    ensures chains[b][i] in entries && Bucket(|chains|, entries[chains[b][i]].hash) == b
  {
    hide Db, Bucket, Get, RepAt;
    ChainAt(h, entries, chains, hashFn, b, i);
  }

  /** The same live entries. */
  ghost predicate SameLive(entries: Entries, entries': Entries) {
    && (forall p :: Live(entries', p) <==> Live(entries, p))
    && (forall p :: Live(entries', p) ==> p in entries && entries'[p] == entries[p])
  }

  lemma SameLiveRefl(entries: Entries)
    ensures SameLive(entries, entries)
  {
  }

  lemma SameLiveTwice(e0: Entries, e1: Entries, e2: Entries, o: nat)
    requires SameLive(e0, e1) && o in e1 && e1[o].dead && e2 == e1 - {o}
    ensures SameLive(e0, e2)
  {
    assert forall p :: Live(e2, p) <==> Live(e1, p);
  }

  lemma LiveView(entries: Entries, entries': Entries)
    requires UniqueKeys(entries) && SameLive(entries, entries')
    ensures UniqueKeys(entries') && View(entries') == View(entries)
  {
    hide UniqueKeys, View;
    ViewSame(entries, entries');
  }

  lemma ListUnique(h: Heap, entries: Entries, chains: Chains, hashFn: Data -> nat, b: nat)
    requires Db(h, entries, chains, hashFn) && b < |chains|
    ensures forall i, j :: 0 <= i < j < |chains[b]| ==> chains[b][i] != chains[b][j]
  {
    hide Sound, Rep, Filed, Used, Bucket, Get;
    LinkedAt(h.mem, chains, b);
  }

  lemma WithoutAt(list: seq<nat>, k: nat)
    requires k < |list|
    ensures Elem(Without(list, k), k) == Elem(list, k + 1) && |Without(list, k)| == |list| - 1
    ensures forall j :: 0 <= j < k ==> Without(list, k)[j] == list[j]
  {
  }

  lemma InChainsOf(h: Heap, entries: Entries, chains: Chains, hashFn: Data -> nat)
    requires Db(h, entries, chains, hashFn)
    ensures forall b, p :: 0 <= b < |chains| && p in chains[b] ==> p in entries
  {
    hide Sound, Rep, Chained, Filed, Used;
    InChains(entries, chains, hashFn);
  }

  lemma InChain(h: Heap, entries: Entries, chains: Chains, hashFn: Data -> nat, o: nat) returns (k: nat)
    requires Db(h, entries, chains, hashFn) && o in entries
    ensures |chains| > 0
    ensures var b := Bucket(|chains|, entries[o].hash); k < |chains[b]| && chains[b][k] == o
  {
    hide Db, Bucket;
    HashOf(h, entries, chains, hashFn, o);
    var b := Bucket(|chains|, entries[o].hash);
    k :| 0 <= k < |chains[b]| && chains[b][k] == o;
  }

  /** A live record marked dead. */
  lemma Marked(h: Heap, entries: Entries, chains: Chains, hashFn: Data -> nat, o: nat, rec: ListStruct)
    requires Db(h, entries, chains, hashFn) && o in entries && rec == RecAt(h.mem, o).(magic := TDB_DEAD_MAGIC)
    ensures Db(h.(mem := Written(h.mem, o, rec)), entries[o := entries[o].(dead := true)], chains, hashFn)
  {
    hide Get, Sound, Used, Rep, Chained, Bucket, UniqueKeys, Db, RepAt, Written, SameOutside;
    var e := entries[o].(dead := true);
    RepOf(h, entries, chains, hashFn, o);
    SameKeyUnique(entries, o, e);
    SizeWord(h, o);
    MarkedRep(h.mem, o, entries[o], rec);
    Rewritten(h, entries, chains, hashFn, o, Written(h.mem, o, rec), e);
  }

  lemma MarkedRep(mem: Words, o: nat, e: Entry, rec: ListStruct)
    requires RepAt(mem, o, e) && rec == RecAt(mem, o).(magic := TDB_DEAD_MAGIC) && o % 4 == 0
    ensures RepAt(Written(mem, o, rec), o, e.(dead := true)) && Get(Written(mem, o, rec), o) == Get(mem, o)
    ensures SameOutside(mem, Written(mem, o, rec), o, TailOf(o, HEADER + e.recLen))
  {
    hide Get, Holds, Written;
    HeaderWritten(mem, o, rec, e.key + e.data);
    WrittenWords(mem, o, rec);
  }

  lemma DbSound(h: Heap, entries: Entries, chains: Chains, hashFn: Data -> nat)
    requires Db(h, entries, chains, hashFn)
    ensures Sound(h, {})
  {
    hide Sound, Rep, Chained, Filed, Used;
  }

  /** No live entry has a key that the map does not have. */
  lemma NotLive(entries: Entries, key: Data)
    requires UniqueKeys(entries) && key !in View(entries)
    ensures forall p :: Live(entries, p) ==> entries[p].key != key
  {
    hide View, UniqueKeys;
    forall p | Live(entries, p)
      ensures entries[p].key != key
    {
      ViewAt(entries, p);
    }
  }

  /** A dead record of the chain used again. */
  lemma Reused(h: Heap, entries: Entries, chains: Chains, hashFn: Data -> nat, o: nat, rec: ListStruct, e: Entry)
    requires Db(h, entries, chains, hashFn) && o in entries && entries[o].dead && !e.dead && |chains| > 0
    requires UniqueKeys(entries) && e.key !in View(entries) && e.hash == hashFn(e.key)
    requires Bucket(|chains|, entries[o].hash) == Bucket(|chains|, e.hash)
    requires |e.key| + |e.data| + 4 <= e.recLen == RecAt(h.mem, o).recLen
    requires rec == RecAt(h.mem, o).(keyLen := |e.key|, dataLen := |e.data|, fullHash := e.hash, magic := TDB_MAGIC)
    ensures var mem' := PutBytes(Written(h.mem, o, rec), o + HEADER, e.key + e.data);
            Db(h.(mem := mem'), entries[o := e], chains, hashFn)
    ensures UniqueKeys(entries[o := e]) && View(entries[o := e]) == View(entries)[e.key := e.data]
  {
    hide Get, View, Sound, Used, Rep, Chained, Bucket, UniqueKeys, Db, RepAt, Written, PutBytes, SameOutside;
    NotLive(entries, e.key);
    ViewPut(entries, o, e);
    RepOf(h, entries, chains, hashFn, o);
    RecordRead(h.mem, o, entries[o]);
    SizeWord(h, o);
    RecordPut(h.mem, o, rec, e);
    Rewritten(h, entries, chains, hashFn, o, PutBytes(Written(h.mem, o, rec), o + HEADER, e.key + e.data), e);
  }

  /** Where the new record and the head of its chain lie. */
  lemma NewInside(h0: Heap, h1: Heap, chains: Chains, o: nat, rec: ListStruct, b: nat)
    requires Allocated(h0, h1, {}, o, HEADER + rec.recLen) && h0.data == DataStart(|chains|) && b < |chains|
    ensures o + HEADER + rec.recLen <= h1.size && HeadOf(b) + 4 <= h1.size && HeadOf(b) < o
  {
    hide Sound, Used, Kept;
    HeadInside(b, |chains|);
    SizeAligned(h1);
    UsedRecord(h1, o);
  }

  /** A new record linked in at the front of its chain. */
  lemma NewRecord(h: Heap, h1: Heap, entries: Entries, chains: Chains, hashFn: Data -> nat, o: nat, rec: ListStruct,
                  e: Entry, b: nat)
    requires Db(h, entries, chains, hashFn) && Allocated(h, h1, {}, o, HEADER + rec.recLen) && !e.dead && |chains| > 0
    requires UniqueKeys(entries) && e.key !in View(entries) && e.hash == hashFn(e.key) && b == Bucket(|chains|, e.hash)
    requires |e.key| + |e.data| + 4 <= e.recLen == rec.recLen
    requires rec == ListStruct(Get(h1.mem, HeadOf(b)), e.recLen, |e.key|, |e.data|, e.hash, TDB_MAGIC)
    ensures var mem' := PutBytes(Written(h1.mem, o, rec), o + HEADER, e.key + e.data);
            Db(h1.(mem := mem'[HeadOf(b) := o]), entries[o := e], chains[b := [o] + chains[b]], hashFn)
    ensures UniqueKeys(entries[o := e]) && View(entries[o := e]) == View(entries)[e.key := e.data]
  {
    hide Get, View, Sound, Used, Rep, Chained, Bucket, UniqueKeys, Kept, Filed, Written, RepAt, PutBytes, SameOutside;
    var mem2 := PutBytes(Written(h1.mem, o, rec), o + HEADER, e.key + e.data);
    var h2 := h1.(mem := mem2);
    SizeWord(h1, o);
    RecordPut(h1.mem, o, rec, e);
    Prepared(h, h1, entries, chains, hashFn, o, mem2, e);
    NotLive(entries, e.key);
    ViewPut(entries, o, e);
    SizesMore(entries, o, e, Used(h, {}), Used(h2, {}));
    HeadKept(h, h1, chains, b);
    LinkedIn(h, h2, entries, chains, hashFn, o, e, b);
  }

  lemma SizesMore(entries: Entries, o: nat, e: Entry, used: map<nat, nat>, used': map<nat, nat>)
    requires Sizes(entries, used) && used' == used[o := HEADER + e.recLen]
    ensures Sizes(entries[o := e], used') && o in used'
  {
  }

  lemma HeadKept(h: Heap, h1: Heap, chains: Chains, b: nat)
    requires Chained(h.mem, chains) && b < |chains| && h.data == DataStart(|chains|)
    requires Kept(h.mem, h1.mem, Used(h, {}), h.data)
    ensures Get(h1.mem, HeadOf(b)) == Elem(chains[b], 0)
  {
    hide Get, Used, Inside;
    HeadInside(b, |chains|);
    LinkedAt(h.mem, chains, b);
    assert Get(h.mem, PtrTo(HeadOf(b), chains[b], 0)) == Elem(chains[b], 0);
  }
}
