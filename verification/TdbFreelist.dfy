/**
 The space allocator of tdb: records with a size at both ends, tiled over the data region, and a
 linked list of the free ones (tdb_free, tdb_allocate, tdb_expand).
 */
module TdbFreelist {
  import opened Arith
  import opened Bytes
  import opened TdbWords

  const FREELIST_TOP := 168
  const HEADER := 24
  const MIN_REC_SIZE := 52
  const TDB_MAGIC := 0x26011999
  const TDB_FREE_MAGIC := 0xD9FE_E666
  const TDB_PAD_U32 := 0x4242_4242

  /** Where records start: after the file header, the free list head and the hash heads. */
  function DataStart(hashSize: nat): (d: nat)
    ensures d > FREELIST_TOP && d % 4 == 0
  {
    FREELIST_TOP + 4 * (hashSize + 1)
  }

  /** A database: its words, its size, and, as proof state, the records (offset to total size) and the free list. */
  datatype Heap = Heap(mem: Words, size: nat, data: nat, starts: map<nat, nat>, list: seq<nat>)

  // ---------- the invariants ----------

  /** A record ends where another begins, or at the end of the file. */
  ghost predicate Fits(h: Heap, o: nat, n: nat) {
    && o % 4 == 0 && n % 4 == 0 && h.data <= o && n >= HEADER + 4
    && o + n <= h.size && (o + n == h.size || o + n in h.starts)
  }

  ghost predicate Apart(starts: map<nat, nat>) {
    forall o, p :: o in starts && p in starts && o < p ==> o + starts[o] <= p
  }

  /** The records tile the data region: each ends where the next begins or at the end of the file, and none overlap. */
  ghost predicate Tiled(h: Heap) {
    && h.data > FREELIST_TOP && h.data % 4 == 0 && h.size % 4 == 0 && h.data <= h.size
    && (h.data == h.size || h.data in h.starts)
    && (forall o :: o in h.starts ==> Fits(h, o, h.starts[o]))
    && Apart(h.starts)
  }

  /** Where the size is repeated at the end of a record of `n` bytes at `o`. */
  function TailOf(o: int, n: int): int {
    o + n - 4
  }

  /** The four bytes before `b` give the size of the record that ends there. */
  ghost predicate Tagged(h: Heap, b: int) {
    && Get(h.mem, b - 4) <= b
    && b - Get(h.mem, b - 4) in h.starts && h.starts[b - Get(h.mem, b - 4)] == Get(h.mem, b - 4)
  }

  /** Every record but the holes has its size at its end. */
  ghost predicate Tailers(h: Heap, holes: set<nat>) {
    && (forall o :: o in h.starts && o !in holes ==> Get(h.mem, TailOf(o, h.starts[o])) == h.starts[o])
    && (forall b :: (b in h.starts || b == h.size) && b > h.data && !EndsHole(h, holes, b) ==> Tagged(h, b))
  }

  ghost predicate EndsHole(h: Heap, holes: set<nat>, b: nat) {
    exists p :: p in holes && p in h.starts && p + h.starts[p] == b
  }

  /**
   Every record but the holes has its size in its header, and the free magic number there exactly if it is
   on the list.
   */
  ghost predicate Headers(h: Heap, holes: set<nat>) {
    forall o :: o in h.starts && o !in holes ==>
      Get(h.mem, o + 4) == h.starts[o] - HEADER && (Get(h.mem, o + 20) == TDB_FREE_MAGIC <==> o in h.list)
  }

  /** The word that holds the number of list element i: the head `top`, or the first word of the element before. */
  function PtrTo(top: nat, list: seq<nat>, i: nat): nat {
    if 0 < i <= |list| then list[i - 1] else top
  }

  function Elem(list: seq<nat>, i: nat): nat {
    if i < |list| then list[i] else 0
  }

  /** The words of a list: it ends, and never meets itself. */
  ghost predicate Linked(mem: Words, top: nat, list: seq<nat>) {
    && (forall i :: 0 <= i <= |list| ==> Get(mem, PtrTo(top, list, i)) == Elem(list, i))
    && (forall i, j :: 0 <= i < j < |list| ==> list[i] != list[j])
  }

  ghost predicate Listed(h: Heap, holes: set<nat>) {
    && Linked(h.mem, FREELIST_TOP, h.list)
    && (forall o :: o in h.list ==> o in h.starts && o !in holes)
  }

  /** No two neighbours are both free. */
  ghost predicate Coalesced(h: Heap) {
    forall o :: o in h.list && o in h.starts ==> o + h.starts[o] !in h.list
  }

  /** What holds between operations (no holes), and while the records in `holes` are being rewritten. */
  ghost predicate Sound(h: Heap, holes: set<nat>) {
    && Tiled(h) && Tailers(h, holes) && Headers(h, holes) && Listed(h, holes) && Coalesced(h)
    && (forall p :: p in holes ==> p in h.starts)
  }

  /** Allocated records and their sizes. */
  ghost function Used(h: Heap, holes: set<nat>): map<nat, nat> {
    map o | o in h.starts && o !in h.list && o !in holes :: h.starts[o]
  }

  ghost predicate Inside(used: map<nat, nat>, w: int) {
    exists o :: o in used && o <= w < o + used[o]
  }

  /** The words of the records in `used`, and those before the data region but for the list head, are the same. */
  ghost predicate Kept(mem: Words, mem': Words, used: map<nat, nat>, data: nat) {
    forall w: int {:trigger Get(mem', w)} ::
        Inside(used, w) || (w < data && w != FREELIST_TOP) ==> Get(mem', w) == Get(mem, w)
  }

  // ---------- writing inside a hole ----------

  lemma Disjoint(h: Heap, o: nat, p: nat)
    requires Tiled(h) && o in h.starts && p in h.starts && o != p
    ensures o + h.starts[o] <= p || p + h.starts[p] <= o
    ensures h.starts[o] >= HEADER + 4 && h.starts[p] >= HEADER + 4
    ensures h.data <= o && h.data <= p && h.data > FREELIST_TOP
  {
  }

  lemma InHoleHeaders(h: Heap, holes: set<nat>, mem: Words, p: nat)
    requires Tiled(h) && Headers(h, holes) && p in holes && p in h.starts && SameOutside(h.mem, mem, p, p + h.starts[p])
    ensures Headers(h.(mem := mem), holes)
  {
    hide Tiled, Get;
    forall o | o in h.starts && o !in holes
      ensures Get(mem, o + 4) == Get(h.mem, o + 4) && Get(mem, o + 20) == Get(h.mem, o + 20)
    {
      Disjoint(h, o, p);
    }
  }

  lemma InHoleList(h: Heap, holes: set<nat>, mem: Words, p: nat)
    requires Tiled(h) && Listed(h, holes) && p in holes && p in h.starts && SameOutside(h.mem, mem, p, p + h.starts[p])
    ensures Listed(h.(mem := mem), holes)
  {
    assert p > FREELIST_TOP;
    hide Tiled, Get;
    forall i | 0 <= i <= |h.list|
      ensures Get(mem, PtrTo(FREELIST_TOP, h.list, i)) == Get(h.mem, PtrTo(FREELIST_TOP, h.list, i))
    {
      if i > 0 {
        assert h.list[i - 1] in h.list;
        Disjoint(h, h.list[i - 1], p);
      }
    }
  }

  lemma InHoleTailers(h: Heap, holes: set<nat>, mem: Words, p: nat)
    requires Tiled(h) && Tailers(h, holes) && p in holes && p in h.starts && SameOutside(h.mem, mem, p, p + h.starts[p])
    ensures Tailers(h.(mem := mem), holes)
  {
    hide Tiled, Get, Tagged, EndsHole;
    var h' := h.(mem := mem);
    forall o | o in h.starts && o !in holes
      ensures Get(mem, TailOf(o, h.starts[o])) == h.starts[o]
    {
      Disjoint(h, o, p);
    }
    hide SameOutside;
    forall b: nat | (b in h.starts || b == h.size) && b > h.data && !EndsHole(h', holes, b)
      ensures Tagged(h', b)
    {
      SameEnds(h, h', holes, b);
      InHoleTag(h, holes, mem, p, b);
    }
  }

  lemma InHoleTag(h: Heap, holes: set<nat>, mem: Words, p: nat, b: nat)
    requires Tiled(h) && p in holes && p in h.starts && SameOutside(h.mem, mem, p, p + h.starts[p])
    requires Tagged(h, b) && !EndsHole(h, holes, b)
    ensures Tagged(h.(mem := mem), b)
  {
    hide Tiled, Get;
    Disjoint(h, b - Get(h.mem, b - 4), p);
  }

  /** Words inside a hole do not matter. */
  lemma InHole(h: Heap, holes: set<nat>, mem: Words, p: nat)
    requires Sound(h, holes) && p in holes && SameOutside(h.mem, mem, p, p + h.starts[p])
    ensures Sound(h.(mem := mem), holes) && Kept(h.mem, mem, Used(h, holes), h.data)
    ensures Used(h.(mem := mem), holes) == Used(h, holes)
  {
    hide Tailers, Headers, Listed;
    InHoleHeaders(h, holes, mem, p);
    InHoleList(h, holes, mem, p);
    InHoleTailers(h, holes, mem, p);
    hide Get;
    forall w | Inside(Used(h, holes), w)
      ensures w < p || w >= p + h.starts[p]
    {
      var o :| o in Used(h, holes) && o <= w < o + Used(h, holes)[o];
      Disjoint(h, o, p);
    }
  }

  // ---------- writing the pointers of the list ----------

  /** A word that holds a list pointer is in no other record's header fields or tail. */
  lemma PointerHeaders(h: Heap, holes: set<nat>, x: nat, v: nat)
    requires Tiled(h) && Headers(h, holes) && (x in h.starts || x < h.data)
    ensures Headers(h.(mem := h.mem[x := v]), holes)
  {
    hide Tiled;
    forall o | o in h.starts
      ensures x != o + 4 && x != o + 20
    {
      StartsApart(h, o, x);
    }
  }

  lemma StartsApart(h: Heap, o: nat, x: nat)
    requires Tiled(h) && o in h.starts && (x in h.starts || x < h.data)
    ensures x <= o || x >= o + h.starts[o]
    ensures h.starts[o] >= HEADER + 4
  {
  }

  lemma PointerTag(h: Heap, x: nat, v: nat, b: nat)
    requires Tiled(h) && Tagged(h, b) && (x in h.starts || x < h.data)
    ensures Tagged(h.(mem := h.mem[x := v]), b)
  {
    var o := b - Get(h.mem, b - 4);
    hide Tiled;
    StartsApart(h, o, x);
    assert x != b - 4;
  }

  lemma PointerTailers(h: Heap, holes: set<nat>, x: nat, v: nat)
    requires Tiled(h) && Tailers(h, holes) && (x in h.starts || x < h.data)
    ensures Tailers(h.(mem := h.mem[x := v]), holes)
  {
    hide Tiled, Tagged, EndsHole;
    var h' := h.(mem := h.mem[x := v]);
    forall o | o in h.starts
      ensures x != TailOf(o, h.starts[o])
    {
      StartsApart(h, o, x);
    }
    forall b | (b in h.starts || b == h.size) && b > h.data && !EndsHole(h', holes, b)
      ensures Tagged(h', b)
    {
      SameEnds(h, h', holes, b);
      PointerTag(h, x, v, b);
    }
  }

  lemma SameEnds(h: Heap, h': Heap, holes: set<nat>, b: nat)
    requires h'.starts == h.starts
    ensures EndsHole(h', holes, b) <==> EndsHole(h, holes, b)
  {
  }

  function Without(list: seq<nat>, k: nat): (r: seq<nat>)
    requires k < |list|
    ensures |r| == |list| - 1
    ensures forall i :: 0 <= i < |r| ==> r[i] == if i < k then list[i] else list[i + 1]
  {
    list[..k] + list[k + 1..]
  }

  /** Taking element k out of the list: its predecessor points to its successor. */
  lemma Unlink(mem: Words, top: nat, list: seq<nat>, k: nat)
    requires Linked(mem, top, list) && k < |list| && top !in list
    ensures Linked(mem[PtrTo(top, list, k) := Elem(list, k + 1)], top, Without(list, k))
    ensures forall o :: o in Without(list, k) <==> o in list && o != list[k]
  {
    var list', x := Without(list, k), PtrTo(top, list, k);
    var mem' := mem[x := Elem(list, k + 1)];
    forall i | 0 <= i <= |list'|
      ensures Get(mem', PtrTo(top, list', i)) == Elem(list', i)
    {
      if i < k {
        assert PtrTo(top, list', i) == PtrTo(top, list, i) != x;
      } else if i > k {
        assert PtrTo(top, list', i) == PtrTo(top, list, i + 1) == list[i] != x;
        assert Elem(list', i) == Elem(list, i + 1);
      }
    }
    forall o | o in list && o != list[k]
      ensures o in list'
    {
      var i :| 0 <= i < |list| && list[i] == o;
      assert list'[if i < k then i else i - 1] == o;
    }
  }

  lemma UsedWithout(h: Heap, holes: set<nat>, mem: Words, k: nat)
    requires k < |h.list| && forall o :: o in Without(h.list, k) <==> o in h.list && o != h.list[k]
    ensures Used(h.(mem := mem, list := Without(h.list, k)), holes + {h.list[k]}) == Used(h, holes)
  {
    hide Without;
  }

  /** A free record taken off the list becomes a hole. */
  lemma Take(h: Heap, holes: set<nat>, k: nat)
    requires Sound(h, holes) && k < |h.list|
    ensures var h' := h.(mem := h.mem[PtrTo(FREELIST_TOP, h.list, k) := Elem(h.list, k + 1)],
              list := Without(h.list, k));
            Sound(h', holes + {h.list[k]}) && Used(h', holes + {h.list[k]}) == Used(h, holes) &&
                Kept(h.mem, h'.mem, Used(h, holes), h.data)
  {
    hide Tiled, Tailers, Headers, Kept, Used, PtrTo, Linked, Without, Elem;
    var x, v, q := PtrTo(FREELIST_TOP, h.list, k), Elem(h.list, k + 1), h.list[k];
    assert q in h.list;
    PtrIsStart(h, holes, k);
    var h1 := h.(mem := h.mem[x := v]);
    var h' := h1.(list := Without(h.list, k));
    Unlink(h.mem, FREELIST_TOP, h.list, k);
    UsedWithout(h, holes, h.mem[x := v], k);
    PointerHeaders(h, holes, x, v);
    PointerTailers(h, holes, x, v);
    PointerKept(h, holes, x, v);
    MoreHoles(h1, holes, q);
    TakenHeaders(h1, h', holes, q);
    SameTiles(h, h');
    SameTailers(h1, h', holes + {q});
  }

  lemma PtrIsStart(h: Heap, holes: set<nat>, k: nat)
    requires Sound(h, holes) && k <= |h.list|
    ensures FREELIST_TOP !in h.list && FREELIST_TOP < h.data
    ensures PtrTo(FREELIST_TOP, h.list, k) == FREELIST_TOP ||
              (PtrTo(FREELIST_TOP, h.list, k) in h.starts && PtrTo(FREELIST_TOP, h.list, k) in h.list)
  {
    hide Tailers, Headers, Coalesced, Linked;
  }

  lemma SameTiles(h: Heap, h': Heap)
    requires Tiled(h) && h'.starts == h.starts && h'.size == h.size && h'.data == h.data
    ensures Tiled(h')
  {
  }

  lemma SameTailers(h: Heap, h': Heap, holes: set<nat>)
    requires Tailers(h, holes) && h'.starts == h.starts && h'.size == h.size && h'.data == h.data && h'.mem == h.mem
    ensures Tailers(h', holes)
  {
    hide EndsHole, Tagged;
    forall b: nat
      ensures EndsHole(h', holes, b) <==> EndsHole(h, holes, b)
      ensures Tagged(h', b) <==> Tagged(h, b)
    {
      SameEnds(h, h', holes, b);
      SameTag(h, h', b);
    }
  }

  lemma SameTag(h: Heap, h': Heap, b: nat)
    requires h'.starts == h.starts && h'.mem == h.mem
    ensures Tagged(h', b) <==> Tagged(h, b)
  {
  }

  lemma TakenHeaders(h: Heap, h': Heap, holes: set<nat>, q: nat)
    requires Headers(h, holes) && h'.mem == h.mem && h'.starts == h.starts
    requires forall o :: o in h'.list <==> o in h.list && o != q
    ensures Headers(h', holes + {q})
  {
  }

  lemma EndsMore(h: Heap, holes: set<nat>, q: nat, b: nat)
    ensures EndsHole(h, holes, b) ==> EndsHole(h, holes + {q}, b)
  {
    if EndsHole(h, holes, b) {
      var p :| p in holes && p in h.starts && p + h.starts[p] == b;
      assert p in holes + {q};
    }
  }

  lemma MoreHoles(h: Heap, holes: set<nat>, q: nat)
    requires Tailers(h, holes)
    ensures Tailers(h, holes + {q})
  {
    hide EndsHole, Tagged;
    forall b | !EndsHole(h, holes + {q}, b)
      ensures !EndsHole(h, holes, b)
    {
      EndsMore(h, holes, q, b);
    }
  }

  lemma PointerKept(h: Heap, holes: set<nat>, x: nat, v: nat)
    requires Tiled(h) && (x == FREELIST_TOP || (x in h.starts && (x in h.list || x in holes)))
    ensures Kept(h.mem, h.mem[x := v], Used(h, holes), h.data)
  {
    hide Tiled, Inside, Used;
    PointerOutside(h, holes, x);
  }

  lemma PointerOutside(h: Heap, holes: set<nat>, x: nat)
    requires Tiled(h) && (x == FREELIST_TOP || (x in h.starts && (x in h.list || x in holes)))
    ensures !Inside(Used(h, holes), x) && (x == FREELIST_TOP || x >= h.data)
  {
    hide Tiled;
    if x in h.starts {
      Starts(h, x);
    }
    forall o | o in Used(h, holes)
      ensures x <= o || x >= o + Used(h, holes)[o]
      ensures x != o
    {
      Starts(h, o);
      StartsApart(h, o, x);
    }
  }

  // ---------- merging, splitting, growing ----------

  function Merged(h: Heap, p: nat, q: nat): Heap
    requires p in h.starts && q in h.starts
  {
    h.(starts := (h.starts - {q})[p := h.starts[p] + h.starts[q]])
  }

  lemma MergedTiles(h: Heap, p: nat, q: nat)
    requires Tiled(h) && p in h.starts && q in h.starts && p + h.starts[p] == q
    ensures Tiled(Merged(h, p, q)) && p < q
  {
    hide Apart, Fits;
    var h' := Merged(h, p, q);
    assert Fits(h, p, h.starts[p]) && Fits(h, q, h.starts[q]);
    forall o | o in h'.starts
      ensures Fits(h', o, h'.starts[o])
    {
      MergedFits(h, p, q, o);
    }
    Starts(h, p);
    MergedApart(h, p, q);
  }

  lemma MergedFits(h: Heap, p: nat, q: nat, o: nat)
    requires Tiled(h) && p in h.starts && q in h.starts && p + h.starts[p] == q && o in Merged(h, p, q).starts
    ensures Fits(Merged(h, p, q), o, Merged(h, p, q).starts[o])
  {
    hide Tiled, Apart;
    FitsIn(h, p);
    FitsIn(h, q);
    FitsIn(h, o);
    if o != p {
      Disjoint(h, o, p);
    }
  }

  lemma FitsIn(h: Heap, o: nat)
    requires Tiled(h) && o in h.starts
    ensures Fits(h, o, h.starts[o])
  {
  }

  lemma MergedApart(h: Heap, p: nat, q: nat)
    requires Tiled(h) && p in h.starts && q in h.starts && p + h.starts[p] == q
    ensures Apart(Merged(h, p, q).starts)
  {
    hide Tiled;
    var starts := Merged(h, p, q).starts;
    forall o, o' | o in starts && o' in starts && o < o'
      ensures o + starts[o] <= o'
    {
      Disjoint(h, o, o');
      if o == p && o' != q {
        Disjoint(h, q, o');
      }
    }
  }

  lemma MergedTailers(h: Heap, holes: set<nat>, p: nat, q: nat)
    requires Tiled(h) && Tailers(h, holes) && p in h.starts && q in h.starts && p + h.starts[p] == q && p in holes
    requires q in holes
    ensures Tailers(Merged(h, p, q), holes - {q})
  {
    hide Tiled, Tagged, EndsHole;
    var h' := Merged(h, p, q);
    Starts(h, p);
    Starts(h, q);
    forall b: nat | (b in h'.starts || b == h.size) && b > h.data && !EndsHole(h', holes - {q}, b)
      ensures Tagged(h', b)
    {
      MergedEnds(h, holes, p, q, b);
      MergedTag(h, holes, p, q, b);
    }
  }

  lemma MergedEnds(h: Heap, holes: set<nat>, p: nat, q: nat, b: nat)
    requires Tiled(h) && p in h.starts && q in h.starts && p + h.starts[p] == q && p in holes && q in holes && b != q
    ensures EndsHole(h, holes, b) ==> EndsHole(Merged(h, p, q), holes - {q}, b)
  {
    hide Tiled;
    Starts(h, p);
    var h' := Merged(h, p, q);
    if EndsHole(h, holes, b) {
      var o :| o in holes && o in h.starts && o + h.starts[o] == b;
      var o' := if o == q then p else o;
      assert p != q;
      assert o' in holes - {q} && o' in h'.starts && o' + h'.starts[o'] == b;
    }
  }

  lemma MergedTag(h: Heap, holes: set<nat>, p: nat, q: nat, b: nat)
    requires p in h.starts && q in h.starts && p + h.starts[p] == q && p in holes && q in holes && b != q
    requires Tagged(h, b) && !EndsHole(h, holes, b)
    ensures Tagged(Merged(h, p, q), b)
  {
    var o := b - Get(h.mem, b - 4);
    assert o + h.starts[o] == b;
    assert o != p && o != q;
  }

  /** Two neighbouring holes become one. */
  lemma Merge(h: Heap, holes: set<nat>, p: nat, q: nat)
    requires Sound(h, holes) && p in holes && q in holes && p + h.starts[p] == q
    ensures Sound(Merged(h, p, q), holes - {q}) && Used(Merged(h, p, q), holes - {q}) == Used(h, holes)
  {
    hide Tiled, Tailers, Linked, Get;
    MergedTiles(h, p, q);
    MergedTailers(h, holes, p, q);
    assert p != q by { Starts(h, p); }
  }

  lemma Starts(h: Heap, p: nat)
    requires Tiled(h) && p in h.starts
    ensures h.starts[p] >= HEADER + 4 && h.data <= p && p + h.starts[p] <= h.size && p % 4 == 0 && h.starts[p] % 4 == 0
    ensures h.data > FREELIST_TOP && h.size !in h.starts
  {
    assert Fits(h, p, h.starts[p]);
    assert h.size in h.starts ==> Fits(h, h.size, h.starts[h.size]);
  }

  function Carved(h: Heap, p: nat, n: nat): Heap
    requires p in h.starts && n <= h.starts[p]
  {
    h.(starts := h.starts[p := n][p + n := h.starts[p] - n])
  }

  lemma CarvedTiles(h: Heap, p: nat, n: nat)
    requires Tiled(h) && p in h.starts && n % 4 == 0 && HEADER + 4 <= n <= h.starts[p] - (HEADER + 4)
    ensures Tiled(Carved(h, p, n)) && p + n !in h.starts
  {
    hide Apart, Fits;
    NoStartInside(h, p, p + n);
    var h' := Carved(h, p, n);
    forall o | o in h'.starts
      ensures Fits(h', o, h'.starts[o])
    {
      CarvedFits(h, p, n, o);
    }
    CarvedApart(h, p, n);
  }

  lemma CarvedFits(h: Heap, p: nat, n: nat, o: nat)
    requires Tiled(h) && p in h.starts && n % 4 == 0 && HEADER + 4 <= n <= h.starts[p] - (HEADER + 4)
    requires o in Carved(h, p, n).starts
    ensures Fits(Carved(h, p, n), o, Carved(h, p, n).starts[o])
  {
    hide Tiled, Apart;
    FitsIn(h, p);
    if o != p + n {
      FitsIn(h, o);
    }
  }

  lemma NoStartInside(h: Heap, p: nat, w: nat)
    requires Tiled(h) && p in h.starts && p < w < p + h.starts[p]
    ensures w !in h.starts
  {
  }

  lemma CarvedApart(h: Heap, p: nat, n: nat)
    requires Tiled(h) && p in h.starts && HEADER + 4 <= n <= h.starts[p] - (HEADER + 4) && p + n !in h.starts
    ensures Apart(Carved(h, p, n).starts)
  {
    hide Tiled;
    var starts := Carved(h, p, n).starts;
    forall o, o' | o in starts && o' in starts && o < o'
      ensures o + starts[o] <= o'
    {
      var a, b := if o == p + n then p else o, if o' == p + n then p else o';
      if a != b {
        Disjoint(h, a, b);
      }
    }
  }

  lemma CarvedEnds(h: Heap, holes: set<nat>, p: nat, n: nat, b: nat)
    requires p in h.starts && p in holes && p + n !in h.starts && n < h.starts[p]
    ensures EndsHole(h, holes, b) ==> EndsHole(Carved(h, p, n), holes + {p + n}, b)
    ensures EndsHole(Carved(h, p, n), holes + {p + n}, p + n)
  {
    var h' := Carved(h, p, n);
    if EndsHole(h, holes, b) {
      var o :| o in holes && o in h.starts && o + h.starts[o] == b;
      var o' := if o == p then p + n else o;
      assert o' in holes + {p + n} && o' in h'.starts && o' + h'.starts[o'] == b;
    }
    assert p in holes + {p + n} && p in h'.starts && p + h'.starts[p] == p + n;
  }

  lemma CarvedTag(h: Heap, holes: set<nat>, p: nat, n: nat, b: nat)
    requires p in h.starts && p in holes && p + n !in h.starts && n < h.starts[p] && Tagged(h, b)
    requires !EndsHole(h, holes, b)
    ensures Tagged(Carved(h, p, n), b)
  {
    var o := b - Get(h.mem, b - 4);
    assert o + h.starts[o] == b;
    assert o != p;
  }

  lemma CarvedTailers(h: Heap, holes: set<nat>, p: nat, n: nat)
    requires Tailers(h, holes) && p in h.starts && p in holes && p + n !in h.starts && n < h.starts[p]
    ensures Tailers(Carved(h, p, n), holes + {p + n})
  {
    hide Tagged, EndsHole;
    var h' := Carved(h, p, n);
    forall b: nat | (b in h'.starts || b == h.size) && b > h.data && !EndsHole(h', holes + {p + n}, b)
      ensures Tagged(h', b)
    {
      CarvedEnds(h, holes, p, n, b);
      CarvedTag(h, holes, p, n, b);
    }
  }

  /** A hole is cut in two. */
  lemma Carve(h: Heap, holes: set<nat>, p: nat, n: nat)
    requires Sound(h, holes) && p in holes && n % 4 == 0 && HEADER + 4 <= n <= h.starts[p] - (HEADER + 4)
    ensures p + n !in h.starts
    ensures Sound(Carved(h, p, n), holes + {p + n}) && Used(Carved(h, p, n), holes + {p + n}) == Used(h, holes)
  {
    hide Tiled, Tailers, Linked, Get;
    CarvedTiles(h, p, n);
    CarvedTailers(h, holes, p, n);
  }

  function Extended(h: Heap, mem: Words, n: nat): Heap {
    h.(mem := mem, size := h.size + n, starts := h.starts[h.size := n])
  }

  /** The file grows by a new hole at its end. */
  lemma Extend(h: Heap, holes: set<nat>, mem: Words, n: nat)
    requires Sound(h, holes) && n % 4 == 0 && n >= HEADER + 4 && SameOutside(h.mem, mem, h.size, h.size + n)
    ensures h.size !in h.starts
    ensures Sound(Extended(h, mem, n), holes + {h.size})
    ensures Used(Extended(h, mem, n), holes + {h.size}) == Used(h, holes)
    ensures Kept(h.mem, mem, Used(h, holes), h.data)
  {
    hide Tiled, Linked, Get, Tailers, Headers, Listed, SameOutside, Kept, Used, Coalesced;
    var h1 := Extended(h, h.mem, n);
    ExtendedTiles(h, n);
    ExtendedTailers(h, holes, n);
    ExtendedHeaders(h, holes, n);
    ExtendedListed(h, holes, n);
    assert h1.starts[h.size] == n;
    InHole(h1, holes + {h.size}, mem, h.size);
  }

  lemma ExtendedTiles(h: Heap, n: nat)
    requires Tiled(h) && n % 4 == 0 && n >= HEADER + 4
    ensures Tiled(Extended(h, h.mem, n)) && h.size !in h.starts
  {
    hide Fits, Apart;
    var h' := Extended(h, h.mem, n);
    forall o | o in h.starts
      ensures o < h.size && Fits(h', o, h.starts[o])
    {
      ExtendedFits(h, n, o);
    }
    assert Fits(h', h.size, n) by { LastFits(h, n); }
    ExtendedApart(h, n);
  }

  lemma ExtendedFits(h: Heap, n: nat, o: nat)
    requires o in h.starts && Fits(h, o, h.starts[o]) && n > 0
    ensures o < h.size && Fits(Extended(h, h.mem, n), o, h.starts[o])
  {
  }

  lemma LastFits(h: Heap, n: nat)
    requires h.size % 4 == 0 && h.data <= h.size && n % 4 == 0 && n >= HEADER + 4
    ensures Fits(Extended(h, h.mem, n), h.size, n)
  {
  }

  lemma ExtendedApart(h: Heap, n: nat)
    requires Apart(h.starts) && forall o :: o in h.starts ==> Fits(h, o, h.starts[o])
    ensures Apart(h.starts[h.size := n])
  {
  }

  lemma ExtendedHeaders(h: Heap, holes: set<nat>, n: nat)
    requires Headers(h, holes) && h.size !in h.starts
    ensures Headers(Extended(h, h.mem, n), holes + {h.size})
  {
  }

  lemma ExtendedListed(h: Heap, holes: set<nat>, n: nat)
    requires Listed(h, holes) && Coalesced(h) && h.size !in h.starts
    ensures Listed(Extended(h, h.mem, n), holes + {h.size}) && Coalesced(Extended(h, h.mem, n))
    ensures Used(Extended(h, h.mem, n), holes + {h.size}) == Used(h, holes)
  {
    hide Linked;
  }

  lemma ExtendedTailers(h: Heap, holes: set<nat>, n: nat)
    requires Tailers(h, holes) && h.size !in h.starts
    ensures Tailers(Extended(h, h.mem, n), holes + {h.size})
  {
    hide Tagged, EndsHole;
    var h' := Extended(h, h.mem, n);
    forall b: nat | (b in h'.starts || b == h'.size) && b > h.data && !EndsHole(h', holes + {h.size}, b)
      ensures Tagged(h', b)
    {
      ExtendedEnds(h, holes, n, b);
      if Tagged(h, b) {
        ExtendedTag(h, n, b);
      }
    }
  }

  lemma ExtendedEnds(h: Heap, holes: set<nat>, n: nat, b: nat)
    requires h.size !in h.starts
    ensures EndsHole(h, holes, b) ==> EndsHole(Extended(h, h.mem, n), holes + {h.size}, b)
    ensures EndsHole(Extended(h, h.mem, n), holes + {h.size}, h.size + n)
  {
    var h' := Extended(h, h.mem, n);
    if EndsHole(h, holes, b) {
      var o :| o in holes && o in h.starts && o + h.starts[o] == b;
      assert o in holes + {h.size} && o in h'.starts && o + h'.starts[o] == b;
    }
    assert h.size in holes + {h.size} && h.size in h'.starts && h.size + h'.starts[h.size] == h.size + n;
  }

  lemma ExtendedTag(h: Heap, n: nat, b: nat)
    requires Tagged(h, b) && h.size !in h.starts
    ensures Tagged(Extended(h, h.mem, n), b)
  {
  }

  // ---------- a hole filled ----------

  ghost predicate Filled(h: Heap, p: nat) {
    && p in h.starts && h.starts[p] >= HEADER
    && Get(h.mem, p + 4) == h.starts[p] - HEADER && Get(h.mem, TailOf(p, h.starts[p])) == h.starts[p]
  }

  lemma FewerEnds(h: Heap, holes: set<nat>, p: nat, b: nat)
    requires p in h.starts
    ensures EndsHole(h, holes, b) ==> EndsHole(h, holes - {p}, b) || b == p + h.starts[p]
  {
    if EndsHole(h, holes, b) {
      var o :| o in holes && o in h.starts && o + h.starts[o] == b;
      if o != p {
        assert o in holes - {p};
      }
    }
  }

  lemma FilledTailers(h: Heap, holes: set<nat>, p: nat)
    requires Tailers(h, holes) && Filled(h, p)
    ensures Tailers(h, holes - {p})
  {
    hide EndsHole;
    forall b: nat | (b in h.starts || b == h.size) && b > h.data && !EndsHole(h, holes - {p}, b)
      ensures Tagged(h, b)
    {
      FewerEnds(h, holes, p, b);
      assert b == p + h.starts[p] ==> TailOf(p, h.starts[p]) == b - 4;
    }
  }

  /** A hole with its size at both ends and another magic number is an allocated record. */
  lemma Close(h: Heap, holes: set<nat>, p: nat)
    requires Sound(h, holes) && p in holes && Filled(h, p) && Get(h.mem, p + 20) != TDB_FREE_MAGIC
    ensures Sound(h, holes - {p}) && Used(h, holes - {p}) == Used(h, holes)[p := h.starts[p]]
  {
    hide Tiled, Tailers, Linked, Get;
    FilledTailers(h, holes, p);
  }

  lemma Relink(mem: Words, top: nat, list: seq<nat>, p: nat)
    requires Linked(mem, top, list) && p !in list && p != top && top !in list && Get(mem, p) == Elem(list, 0)
    ensures Linked(mem[top := p], top, [p] + list)
  {
    var mem', list' := mem[top := p], [p] + list;
    forall i | 0 <= i <= |list'|
      ensures Get(mem', PtrTo(top, list', i)) == Elem(list', i)
    {
      if i > 1 {
        assert PtrTo(top, list', i) == PtrTo(top, list, i - 1) && Elem(list', i) == Elem(list, i - 1);
        assert list[i - 2] in list;
      }
    }
  }

  /**
   A hole with its size at both ends, the free magic number, and a pointer to the list goes to the front
   of the list.
   */
  lemma Push(h: Heap, holes: set<nat>, p: nat)
    requires Sound(h, holes) && p in holes && Filled(h, p) && Get(h.mem, p + 20) == TDB_FREE_MAGIC
    requires Get(h.mem, p) == Elem(h.list, 0)
    requires p + h.starts[p] !in h.list && forall o :: o in h.list && o in h.starts ==> o + h.starts[o] != p
    ensures var h' := h.(mem := h.mem[FREELIST_TOP := p], list := [p] + h.list);
            Sound(h', holes - {p}) && Used(h', holes - {p}) == Used(h, holes) &&
                Kept(h.mem, h'.mem, Used(h, holes), h.data)
  {
    hide Tiled, Tailers, Headers, Linked, Kept;
    var h1 := h.(mem := h.mem[FREELIST_TOP := p]);
    var h' := h1.(list := [p] + h.list);
    PtrIsStart(h, holes, 0);
    Starts(h, p);
    Relink(h.mem, FREELIST_TOP, h.list, p);
    PointerHeaders(h, holes, FREELIST_TOP, p);
    PointerTailers(h, holes, FREELIST_TOP, p);
    PointerKept(h, holes, FREELIST_TOP, p);
    FilledTailers(h1, holes, p);
    SameTiles(h, h');
    SameTailers(h1, h', holes - {p});
    PushedHeaders(h1, h', holes, p);
    PushedUsed(h, h', holes, p);
    PushedCoalesced(h, h', p);
  }

  lemma PushedHeaders(h: Heap, h': Heap, holes: set<nat>, p: nat)
    requires Headers(h, holes) && Filled(h, p) && h' == h.(list := [p] + h.list) && Get(h.mem, p + 20) == TDB_FREE_MAGIC
    ensures Headers(h', holes - {p})
  {
  }

  lemma PushedUsed(h: Heap, h': Heap, holes: set<nat>, p: nat)
    requires p in holes && h'.starts == h.starts && h'.list == [p] + h.list
    ensures Used(h', holes - {p}) == Used(h, holes)
  {
  }

  lemma PushedCoalesced(h: Heap, h': Heap, p: nat)
    requires Coalesced(h) && p in h.starts && p !in h.list && h'.starts == h.starts && h'.list == [p] + h.list
    requires p + h.starts[p] !in h.list && h.starts[p] > 0
    requires forall o :: o in h.list && o in h.starts ==> o + h.starts[o] != p
    ensures Coalesced(h')
  {
  }

  /** An allocated record, or a free one not on the list yet, opened for rewriting. */
  lemma Open(h: Heap, holes: set<nat>, p: nat)
    requires Sound(h, holes) && p in Used(h, holes)
    ensures Sound(h, holes + {p}) && Used(h, holes + {p}) == Used(h, holes) - {p}
  {
    hide Tiled, Linked;
    MoreHoles(h, holes, p);
    hide Tailers;
  }

  /** Element k of the list, and the word that points to it. */
  lemma ListAt(h: Heap, holes: set<nat>, k: nat)
    requires Sound(h, holes) && k <= |h.list|
    ensures Get(h.mem, PtrTo(FREELIST_TOP, h.list, k)) == Elem(h.list, k)
    ensures PtrTo(FREELIST_TOP, h.list, k) + 4 <= h.size
    ensures k < |h.list| ==>
              && Elem(h.list, k) in h.list && Elem(h.list, k) in h.starts && Elem(h.list, k) != 0
              && Elem(h.list, k) + HEADER <= h.size && Elem(h.list, k) !in holes
    ensures Elem(h.list, k) != 0 ==> k < |h.list|
  {
    hide Tailers, Headers, Apart, Coalesced;
    if k < |h.list| {
      assert h.list[k] in h.list;
      FitsIn(h, h.list[k]);
    }
    if k > 0 {
      assert h.list[k - 1] in h.list;
      FitsIn(h, h.list[k - 1]);
    }
  }

  lemma KeptTwice(m0: Words, m1: Words, m2: Words, used: map<nat, nat>, data: nat)
    requires Kept(m0, m1, used, data) && Kept(m1, m2, used, data)
    ensures Kept(m0, m2, used, data)
  {
    hide Inside;
  }

  lemma KeptSame(m: Words, used: map<nat, nat>, data: nat)
    ensures Kept(m, m, used, data)
  {
  }

  // ---------- the code ----------

  /** struct list_struct */
  datatype ListStruct = ListStruct(next: nat, recLen: nat, keyLen: nat, dataLen: nat, fullHash: nat, magic: nat)

  function Written(mem: Words, o: nat, rec: ListStruct): Words {
    var lengths := mem[o := rec.next][o + 4 := rec.recLen][o + 8 := rec.keyLen][o + 12 := rec.dataLen];
    lengths[o + 16 := rec.fullHash][o + 20 := rec.magic]
  }

  function RecAt(mem: Words, o: nat): ListStruct {
    ListStruct(Get(mem, o), Get(mem, o + 4), Get(mem, o + 8), Get(mem, o + 12), Get(mem, o + 16), Get(mem, o + 20))
  }

  /** What an operation that allocates and frees nothing for its caller keeps. */
  ghost predicate Preserved(h: Heap, holes: set<nat>, h': Heap, holes': set<nat>) {
    && Sound(h', holes') && h'.data == h.data
    && Used(h', holes') == Used(h, holes) && Kept(h.mem, h'.mem, Used(h, holes), h.data)
  }

  lemma PreservedTwice(h0: Heap, s0: set<nat>, h1: Heap, s1: set<nat>, h2: Heap, s2: set<nat>)
    requires Preserved(h0, s0, h1, s1) && Preserved(h1, s1, h2, s2)
    ensures Preserved(h0, s0, h2, s2)
  {
    hide Sound, Used, Kept;
    KeptTwice(h0.mem, h1.mem, h2.mem, Used(h0, s0), h0.data);
  }

  // ---------- neighbours ----------

  ghost predicate NoFreeAfter(h: Heap, p: nat) {
    p in h.starts && p + h.starts[p] !in h.list
  }

  ghost predicate NoFreeBefore(h: Heap, p: nat) {
    forall o :: o in h.list && o in h.starts ==> o + h.starts[o] != p
  }

  /** What tdb_free sees when it looks right. */
  lemma LookRight(h: Heap, p: nat)
    requires Sound(h, {p})
    ensures var e := p + h.starts[p];
            && (e + HEADER <= h.size ==>
                  && e in h.starts && e != p && Get(h.mem, e + 4) + HEADER == h.starts[e]
                  && (Get(h.mem, e + 20) == TDB_FREE_MAGIC <==> e in h.list))
            && (e + HEADER > h.size ==> e !in h.list)
            && (e in h.list ==> e + HEADER <= h.size)
  {
    hide Tailers, Apart, Linked, Coalesced;
    FitsIn(h, p);
    var e := p + h.starts[p];
    if e in h.starts {
      FitsIn(h, e);
    }
  }

  /** What tdb_free sees when it looks left: the size of the record that ends here. */
  lemma LookLeft(h: Heap, p: nat)
    requires Sound(h, {p})
    ensures p == h.data ==> NoFreeBefore(h, p)
    ensures p >= h.data && p + HEADER <= h.size
    ensures p > h.data ==>
              var t := Get(h.mem, p - 4);
              var l := p - t;
              && t != 0 && t != TDB_PAD_U32 && 0 <= l && l in h.starts && h.starts[l] == t && l != p
              && (Get(h.mem, l + 20) == TDB_FREE_MAGIC <==> l in h.list) && (l !in h.list ==> NoFreeBefore(h, p))
  {
    hide Tiled, Linked, Coalesced, Tailers, Get;
    Starts(h, p);
    if p > h.data {
      TagAt(h, p);
      var l := p - Get(h.mem, p - 4);
      Starts(h, l);
      NotPadding(h.starts[l]);
      forall o | o in h.list && o in h.starts && o + h.starts[o] == p
        ensures o == l
      {
        SameEndSame(h, o, l);
      }
    } else {
      forall o | o in h.list && o in h.starts
        ensures o + h.starts[o] != p
      {
        Starts(h, o);
      }
    }
  }

  /** A size is never mistaken for the bytes a file is padded with. */
  lemma NotPadding(n: nat)
    requires n % 4 == 0
    ensures n != TDB_PAD_U32
  {
  }

  lemma TagAt(h: Heap, p: nat)
    requires Sound(h, {p}) && p > h.data
    ensures Tagged(h, p)
  {
    hide Tiled, Tagged;
    FitsIn(h, p);
    assert !EndsHole(h, {p}, p);
  }

  lemma SameEndSame(h: Heap, o: nat, p: nat)
    requires Tiled(h) && o in h.starts && p in h.starts && o + h.starts[o] == p + h.starts[p]
    ensures o == p
  {
    hide Tiled;
    if o != p {
      Disjoint(h, o, p);
    }
  }

  /** The right neighbour, free, taken off the list and merged into the hole. */
  lemma MergeRightStep(h: Heap, p: nat, k: nat)
    requires Sound(h, {p}) && k < |h.list| && h.list[k] == p + h.starts[p]
    ensures var q := h.list[k];
            q in h.starts &&
            var h' := Merged(h.(mem := h.mem[PtrTo(FREELIST_TOP, h.list, k) := Elem(h.list, k + 1)],
                list := Without(h.list, k)), p, q);
            Preserved(h, {p}, h', {p}) && NoFreeAfter(h', p) && h'.starts[p] == h.starts[p] + h.starts[q]
  {
    hide Tiled, Tailers, Headers, Linked, PtrTo, Elem, Kept, Used;
    var q := h.list[k];
    assert q in h.list && q in h.starts && q != p;
    Take(h, {p}, k);
    var h1 := h.(mem := h.mem[PtrTo(FREELIST_TOP, h.list, k) := Elem(h.list, k + 1)], list := Without(h.list, k));
    assert {p} + {q} - {q} == {p};
    Merge(h1, {p} + {q}, p, q);
    FewerFree(h, k);
    hide Without;
  }

  lemma FewerFree(h: Heap, k: nat)
    requires k < |h.list|
    ensures forall o :: o in Without(h.list, k) ==> o in h.list
  {
    forall o | o in Without(h.list, k)
      ensures o in h.list
    {
      var i :| 0 <= i < |h.list| - 1 && Without(h.list, k)[i] == o;
      assert o == h.list[if i < k then i else i + 1];
    }
  }

  /** The left neighbour, free, taken off the list and merged with the hole. */
  lemma MergeLeftStep(h: Heap, p: nat, k: nat)
    requires Sound(h, {p}) && k < |h.list| && h.list[k] in h.starts && h.list[k] + h.starts[h.list[k]] == p
    requires NoFreeAfter(h, p)
    ensures var l := h.list[k];
            var h' := Merged(h.(mem := h.mem[PtrTo(FREELIST_TOP, h.list, k) := Elem(h.list, k + 1)],
                list := Without(h.list, k)), l, p);
            Preserved(h, {p}, h', {l}) && NoFreeAfter(h', l) && NoFreeBefore(h', l) &&
                h'.starts[l] == h.starts[l] + h.starts[p]
  {
    hide Tiled, Tailers, Headers, Linked, PtrTo, Elem, Kept, Used;
    var l := h.list[k];
    assert l in h.list && l != p;
    Take(h, {p}, k);
    var h1 := h.(mem := h.mem[PtrTo(FREELIST_TOP, h.list, k) := Elem(h.list, k + 1)], list := Without(h.list, k));
    assert {p} + {l} - {p} == {l};
    Merge(h1, {p} + {l}, l, p);
    FewerFree(h, k);
    hide Without;
    forall o | o in h1.list && o in h.starts
      ensures o + h.starts[o] != l
    {
      assert o in h.list;
    }
  }

  /** The hole written as a free record at the front of the list. */
  lemma FinishFree(h: Heap, p: nat, rec: ListStruct)
    requires Sound(h, {p}) && NoFreeAfter(h, p) && NoFreeBefore(h, p)
    requires rec.recLen + HEADER == h.starts[p] && rec.magic == TDB_FREE_MAGIC && rec.next == Get(h.mem, FREELIST_TOP)
    ensures var mem := Written(h.mem[TailOf(p, h.starts[p]) := h.starts[p]], p, rec);
            Preserved(h, {p}, h.(mem := mem[FREELIST_TOP := p], list := [p] + h.list), {})
  {
    hide Tiled, Tailers, Headers, Kept, Used;
    FitsIn(h, p);
    ListAt(h, {p}, 0);
    var mem1 := h.mem[TailOf(p, h.starts[p]) := h.starts[p]];
    var mem := Written(mem1, p, rec);
    assert SameOutside(h.mem, mem, p, p + h.starts[p]);
    InHole(h, {p}, mem, p);
    var h1 := h.(mem := mem);
    assert Filled(h1, p);
    assert {p} - {p} == {};
    hide Fits, Linked, Get;
    Push(h1, {p}, p);
    KeptTwice(h.mem, mem, mem[FREELIST_TOP := p], Used(h, {p}), h.data);
  }

  lemma PtrTop(top: nat, list: seq<nat>)
    ensures PtrTo(top, list, 0) == top
  {
  }

  lemma PtrNext(top: nat, list: seq<nat>, k: nat)
    requires k < |list|
    ensures PtrTo(top, list, k + 1) == list[k]
  {
  }

  lemma ElemAt(list: seq<nat>, k: nat)
    ensures k < |list| ==> Elem(list, k) == list[k]
    ensures k >= |list| ==> Elem(list, k) == 0
  {
  }

  class Allocator {
    const hashSize: nat
    const pageSize: nat
    var mem: Words
    var mapSize: nat
    ghost var starts: map<nat, nat>
    ghost var list: seq<nat>

    /** tdb_new_database: a header, an empty free list and empty hash chains. */
    constructor (hashSize: nat, pageSize: nat)
      requires pageSize > 0 && pageSize % 4 == 0
      ensures this.hashSize == hashSize && this.pageSize == pageSize
      ensures Valid() && Used(Now(), {}) == map[] && forall w :: Get(mem, w) == 0
    {
      this.hashSize, this.pageSize := hashSize, pageSize;
      mem, mapSize, starts, list := map[], DataStart(hashSize), map[], [];
    }

    ghost function Now(): Heap
      reads this
    {
      Heap(mem, mapSize, DataStart(hashSize), starts, list)
    }

    ghost predicate Valid()
      reads this
    {
      Sound(Now(), {}) && pageSize > 0 && pageSize % 4 == 0
    }

    /** tdb_ofs_read */
    method OfsRead(off: nat) returns (v: nat)
      requires off + 4 <= mapSize
      ensures v == Get(mem, off)
    {
      v := Get(mem, off);
    }

    /** tdb_ofs_write */
    method OfsWrite(off: nat, v: nat)
      requires off + 4 <= mapSize
      modifies this`mem
      ensures mem == old(mem)[off := v]
    {
      mem := mem[off := v];
    }

    /** remove_from_freelist */
    method RemoveFromFreelist(off: nat, next: nat, ghost holes: set<nat>) returns (ok: bool, ghost k: nat)
      requires Sound(Now(), holes) && next == Get(mem, off)
      modifies this`mem, this`list
      ensures ok <==> off in old(list)
      ensures ok ==> k < |old(list)| && old(list)[k] == off && list == Without(old(list), k)
                     && mem == old(mem)[PtrTo(FREELIST_TOP, old(list), k) := Elem(old(list), k + 1)]
      ensures !ok ==> mem == old(mem) && list == old(list)
    {
      hide Sound, PtrTo, Elem, Without;
      var lastPtr := FREELIST_TOP;
      ListAt(Now(), holes, 0);
      assert PtrTo(FREELIST_TOP, list, 0) == FREELIST_TOP by { PtrTop(FREELIST_TOP, list); }
      var i := OfsRead(lastPtr);
      k := 0;
      while i != 0
        invariant k <= |list| && lastPtr == PtrTo(FREELIST_TOP, list, k) && i == Elem(list, k)
        invariant off !in list[..k] && mem == old(mem) && list == old(list)
        decreases |list| - k
      {
        ListAt(Now(), holes, k);
        ElemAt(list, k);
        if i == off {
          OfsWrite(lastPtr, next);
          ListAt(Heap(old(mem), mapSize, DataStart(hashSize), starts, list), holes, k + 1);
          assert PtrTo(FREELIST_TOP, list, k + 1) == off by { PtrNext(FREELIST_TOP, list, k); }
          list := Without(list, k);
          return true, k;
        }
        assert list[..k + 1] == list[..k] + [i];
        PtrNext(FREELIST_TOP, list, k);
        ListAt(Now(), holes, k + 1);
        lastPtr, k := i, k + 1;
        i := OfsRead(lastPtr);
      }
      ListAt(Now(), holes, k);
      assert list[..k] == list;
      ok := false;
    }

    /** tdb_read of a record header, with no test of it */
    method ReadHeader(off: nat) returns (rec: ListStruct)
      requires off + HEADER <= mapSize
      ensures rec == RecAt(mem, off)
    {
      rec := RecAt(mem, off);
    }

    /** tdb_rec_write */
    method RecWrite(off: nat, rec: ListStruct)
      requires off + HEADER <= mapSize
      modifies this`mem
      ensures mem == Written(old(mem), off, rec)
    {
      mem := Written(mem, off, rec);
    }

    /** tdb_read of a byte string */
    method Read(off: nat, len: nat) returns (data: seq<Byte>)
      requires off + len <= mapSize
      ensures data == ReadBytes(mem, off, len)
    {
      data := ReadBytes(mem, off, len);
    }

    /** tdb_write of a byte string */
    method Write(off: nat, data: seq<Byte>)
      requires off + |data| <= mapSize
      modifies this`mem
      ensures mem == PutBytes(old(mem), off, data)
    {
      mem := PutBytes(mem, off, data);
    }

    /** update_tailer */
    method UpdateTailer(offset: nat, recLen: nat)
      requires offset + HEADER + recLen <= mapSize
      modifies this`mem
      ensures mem == old(mem)[TailOf(offset, HEADER + recLen) := HEADER + recLen]
    {
      var totalSize := HEADER + recLen;
      OfsWrite(offset + totalSize - 4, totalSize);
    }

    /** The right neighbour, if it is free, becomes part of the hole. */
    method AbsorbRight(off: nat, recLen: nat) returns (len: nat)
      requires Sound(Now(), {off}) && starts[off] == HEADER + recLen
      modifies this`mem, this`starts, this`list
      ensures Preserved(old(Now()), {off}, Now(), {off}) && NoFreeAfter(Now(), off)
      ensures off in starts && starts[off] == HEADER + len && len >= recLen
    {
      hide Sound, Preserved, NoFreeBefore, Used, Kept, PtrTo, Elem, Without, Get;
      ghost var before := Now();
      len := recLen;
      LookRight(before, off);
      PreservedNothing(before, {off});
      HoleIn(before, {off}, off);
      var right := off + HEADER + recLen;
      if right + HEADER <= mapSize {
        var r := ReadHeader(right);
        if r.magic == TDB_FREE_MAGIC {
          ghost var k;
          var ok;
          ok, k := RemoveFromFreelist(right, r.next, {off});
          MergeRightStep(before, off, k);
          starts := Merged(before, off, right).starts;
          len := len + HEADER + r.recLen;
        }
      }
    }

    /** The left neighbour, if it is free, takes the hole in. */
    method AbsorbLeft(offset: nat, recLen: nat) returns (off: nat, len: nat)
      requires Sound(Now(), {offset}) && starts[offset] == HEADER + recLen && NoFreeAfter(Now(), offset)
      modifies this`mem, this`starts, this`list
      ensures Preserved(old(Now()), {offset}, Now(), {off}) && NoFreeAfter(Now(), off) && NoFreeBefore(Now(), off)
      ensures off in starts && starts[off] == HEADER + len && len >= recLen
    {
      hide Sound, Preserved, NoFreeBefore, NoFreeAfter, Used, Kept, PtrTo, Elem, Without, Get;
      ghost var before := Now();
      off, len := offset, recLen;
      LookLeft(before, offset);
      PreservedNothing(before, {offset});
      HoleIn(before, {offset}, offset);
      var left := off - 4;
      if left > DataStart(hashSize) - 4 {
        var leftSize := OfsRead(left);
        if leftSize == 0 || leftSize == TDB_PAD_U32 {
          return;
        }
        left := off - leftSize;
        RecordIn(before, {offset}, left);
        var l := ReadHeader(left);
        if l.magic == TDB_FREE_MAGIC {
          ghost var k;
          var ok;
          ok, k := RemoveFromFreelist(left, l.next, {offset});
          MergeLeftStep(before, offset, k);
          starts := Merged(before, left, offset).starts;
          off, len := left, len + leftSize;
        }
      }
    }

    /** tdb_free: the record at `offset`, whose header need not have been written, becomes free space. */
    method Free(offset: nat, rec: ListStruct)
      requires Sound(Now(), {offset}) && starts[offset] == HEADER + rec.recLen
      modifies this`mem, this`starts, this`list
      ensures Preserved(old(Now()), {offset}, Now(), {})
      ensures list != [] && list[0] in starts && starts[list[0]] >= HEADER + rec.recLen
    {
      hide Sound, Preserved, NoFreeAfter, NoFreeBefore, Get;
      ghost var h0 := Now();
      var off, len := offset, rec.recLen;
      HoleIn(h0, {offset}, offset);
      UpdateTailer(off, len);
      TailInHole(h0, offset);
      ghost var h1 := Now();
      PreservedSound(h0, {offset}, h1, {offset});
      len := AbsorbRight(off, len);
      ghost var h2 := Now();
      PreservedTwice(h0, {offset}, h1, {offset}, h2, {offset});
      PreservedSound(h0, {offset}, h2, {offset});
      off, len := AbsorbLeft(off, len);
      ghost var h3 := Now();
      PreservedTwice(h0, {offset}, h2, {offset}, h3, {off});
      PreservedSound(h0, {offset}, h3, {off});
      HoleIn(h3, {off}, off);
      UpdateTailer(off, len);
      var next := OfsRead(FREELIST_TOP);
      TopNotTail(h3, off);
      var freeRec := rec.(next := next, recLen := len, magic := TDB_FREE_MAGIC);
      RecWrite(off, freeRec);
      OfsWrite(FREELIST_TOP, off);
      list := [off] + list;
      FinishFree(h3, off, freeRec);
      PreservedTwice(h0, {offset}, h3, {off}, Now(), {});
    }

    /**
     tdb_allocate_ofs: element k of the free list, split if it is much longer than needed, becomes an
     allocated record.
     */
    method AllocateOfs(length: nat, recPtr: nat, rec0: ListStruct, lastPtr: nat, ghost k: nat)
      returns (r: nat, rec: ListStruct)
      requires Sound(Now(), {}) && length >= 4 && k < |list| && list[k] == recPtr
      requires lastPtr == PtrTo(FREELIST_TOP, list, k)
      requires rec0 == RecAt(mem, recPtr) && rec0.recLen >= length
      modifies this`mem, this`starts, this`list
      ensures r == recPtr && rec.recLen >= length && Allocated(old(Now()), Now(), {}, r, HEADER + rec.recLen)
      ensures rec.magic == TDB_MAGIC && HeaderIs(mem, r, rec)
      ensures if rec0.recLen > length + MIN_REC_SIZE then rec.recLen % 4 == 0 && rec.recLen < length + 4
              else rec.recLen == rec0.recLen
    {
      hide Sound, Used, Kept, PtrTo, Elem, Without, Get, Allocated, Align;
      ghost var h0 := Now();
      ListAt(h0, {}, k);
      ListAt(h0, {}, k + 1);
      PtrNext(FREELIST_TOP, list, k);
      ElemAt(list, k);
      FreeRecord(h0, k);
      Take(h0, {}, k);
      ghost var h1 := h0.(mem := h0.mem[lastPtr := rec0.next], list := Without(h0.list, k));
      assert {} + {recPtr} == {recPtr};
      rec, r := rec0.(magic := TDB_MAGIC), recPtr;
      var newRec, newPtr := ListStruct(0, 0, 0, 0, 0, 0), 0;
      if rec0.recLen > length + MIN_REC_SIZE {
        AlignIs(length, 4);
        var left := Align(length, 4);
        newRec := newRec.(recLen := rec0.recLen - (HEADER + left));
        newPtr := recPtr + HEADER + left;
        rec := rec.(recLen := left);
      }
      OfsWrite(lastPtr, rec0.next);
      list := Without(list, k);
      RecWrite(recPtr, rec);
      if newPtr != 0 {
        UpdateTailer(recPtr, rec.recLen);
        SplitFree(h0, h1, recPtr, rec, newPtr);
        starts := Carved(h1, recPtr, HEADER + rec.recLen).starts;
        ghost var h2 := Now();
        AllocatedSound(h0, h2, {newPtr}, recPtr, HEADER + rec.recLen);
        Free(newPtr, newRec);
        AllocatedBySplit(h0, h2, Now(), recPtr, rec, newPtr);
      } else {
        TailKept(h0, k);
        WholeFree(h0, h1, recPtr, rec);
      }
    }

    /** rec_free_read; on a sound list it never has to repair or refuse a record. */
    method RecFreeRead(off: nat, ghost k: nat) returns (ok: bool, rec: ListStruct)
      requires Sound(Now(), {}) && k < |list| && list[k] == off
      ensures ok && rec == RecAt(mem, off)
    {
      hide Sound, Get, Used;
      ListAt(Now(), {}, k);
      ElemAt(list, k);
      FreeMagic(Now(), k);
      rec := ReadHeader(off);
      if rec.magic != TDB_FREE_MAGIC {
        return false, rec;
      }
      NextInside(Now(), k);
      ok := rec.next + HEADER <= mapSize;
    }

    /** The search of tdb_allocate through the free list. */
    method FindFit(length: nat) returns (best: nat, lastPtr: nat, ghost k: nat)
      requires Sound(Now(), {})
      ensures best == 0 ==> NoFit(Now(), length)
      ensures best != 0 ==>
                k < |list| && list[k] == best && lastPtr == PtrTo(FREELIST_TOP, list, k) && GoodFit(Now(), best, length)
    {
      hide Sound, Get, Used, Elem;
      ListAt(Now(), {}, 0);
      PtrTop(FREELIST_TOP, list);
      var last := FREELIST_TOP;
      var recPtr := OfsRead(last);
      var bestLen := 0;
      best, lastPtr, k := 0, 0, 0;
      ghost var i := 0;
      while recPtr != 0
        invariant i <= |list| && last == PtrTo(FREELIST_TOP, list, i) && recPtr == Elem(list, i)
        invariant best == 0 ==> forall j :: 0 <= j < i ==> SizeAt(Now(), j) < length
        invariant best != 0 ==>
                    && k < i && list[k] == best && lastPtr == PtrTo(FREELIST_TOP, list, k)
                    && bestLen == SizeAt(Now(), k) >= length
        invariant best != 0 ==> forall j :: 0 <= j < i && SizeAt(Now(), j) >= length ==> bestLen <= SizeAt(Now(), j)
        decreases |list| - i
      {
        ListAt(Now(), {}, i);
        ElemAt(list, i);
        FreeRecord(Now(), i);
        var ok, rec := RecFreeRead(recPtr, i);
        if rec.recLen >= length {
          if best == 0 || rec.recLen < bestLen {
            bestLen, best, lastPtr, k := rec.recLen, recPtr, last, i;
            if bestLen < 2 * length {
              break;
            }
          }
        }
        ListAt(Now(), {}, i + 1);
        PtrNext(FREELIST_TOP, list, i);
        last, recPtr, i := recPtr, rec.next, i + 1;
      }
      if best == 0 || bestLen >= 2 * length {
        ListAt(Now(), {}, i);
      }
      if best != 0 {
        FreeRecord(Now(), k);
        assert best in list && SizeAt(Now(), k) == starts[best] - HEADER;
      }
    }

    /** tdb_expand: room for at least ten more records of the size, in whole pages. */
    method Expand(size: nat)
      requires Valid() && size >= 3
      modifies this
      ensures Preserved(old(Now()), {}, Now(), {})
      ensures mapSize == Align(old(mapSize) + size * 10, pageSize)
      ensures list != [] && list[0] in starts && starts[list[0]] >= size * 10
    {
      hide Sound, Preserved, Used, Kept, Align, DataStart;
      ghost var h0 := Now();
      WholePages(mapSize + size * 10, pageSize);
      SizeAligned(h0);
      var added := Align(mapSize + size * 10, pageSize) - mapSize;
      var offset := mapSize;
      mem := mem + (map w: nat | offset <= w < offset + added && w % 4 == 0 :: TDB_PAD_U32);
      ExtendPreserves(h0, mem, added);
      mapSize := mapSize + added;
      starts := starts[offset := added];
      ghost var h1 := Now();
      PreservedSound(h0, {}, h1, {offset});
      Free(offset, ListStruct(0, added - HEADER, 0, 0, 0, 0));
      PreservedTwice(h0, {}, h1, {offset}, Now(), {});
    }

    /** tdb_allocate: space for `length0` bytes and the size at the end; at most one expansion. */
    method Allocate(length0: nat) returns (recPtr: nat, rec: ListStruct, ghost expansions: nat)
      requires Valid()
      modifies this
      ensures Valid() && recPtr != 0
      ensures length0 + 4 <= rec.recLen <= length0 + 4 + MIN_REC_SIZE
      ensures rec.magic == TDB_MAGIC && HeaderIs(mem, recPtr, rec)
      ensures Allocated(old(Now()), Now(), {}, recPtr, HEADER + rec.recLen)
      ensures expansions <= 1 && (expansions == 0 <==> !NoFit(old(Now()), length0 + 4))
      ensures expansions == 0 ==> mapSize == old(mapSize) && GoodFit(old(Now()), recPtr, length0 + 4)
      ensures expansions == 1 ==> mapSize == Align(old(mapSize) + (length0 + 4 + HEADER) * 10, pageSize)
    {
      hide Sound, Preserved, Used, Kept, NoFit, GoodFit, PtrTo, Allocated;
      var length := length0 + 4;
      ghost var h0 := Now();
      expansions := 0;
      PreservedNothing(h0, {});
      while true
        invariant Preserved(h0, {}, Now(), {}) && expansions <= 1
        invariant expansions == 0 ==> Now() == h0
        invariant expansions == 1 ==>
                    && NoFit(h0, length) && !NoFit(Now(), length)
                    && mapSize == Align(h0.size + (length + HEADER) * 10, pageSize)
        decreases 1 - expansions
      {
        PreservedSound(h0, {}, Now(), {});
        ghost var h1 := Now();
        var best, lastPtr;
        ghost var k;
        best, lastPtr, k := FindFit(length);
        if best != 0 {
          FitThere(h1, best, length);
          FreeRecord(h1, k);
          var ok;
          ok, rec := RecFreeRead(best, k);
          recPtr, rec := AllocateOfs(length, best, rec, lastPtr, k);
          AllocatedAfter(h0, h1, Now(), recPtr, HEADER + rec.recLen);
          AllocatedSound(h0, Now(), {}, recPtr, HEADER + rec.recLen);
          return;
        }
        Expand(length + HEADER);
        PreservedTwice(h0, {}, h1, {}, Now(), {});
        RoomAfter(Now(), length);
        expansions := expansions + 1;
      }
      assert false;
    }
  }

  lemma PreservedNothing(h: Heap, holes: set<nat>)
    requires Sound(h, holes)
    ensures Preserved(h, holes, h, holes)
  {
    hide Sound;
    KeptSame(h.mem, Used(h, holes), h.data);
  }

  lemma PreservedSound(h: Heap, holes: set<nat>, h': Heap, holes': set<nat>)
    requires Preserved(h, holes, h', holes')
    ensures Sound(h', holes')
  {
    hide Sound;
  }

  lemma RecordIn(h: Heap, holes: set<nat>, p: nat)
    requires Sound(h, holes) && p in h.starts
    ensures p >= h.data > FREELIST_TOP && h.starts[p] >= HEADER + 4 && p + h.starts[p] <= h.size
  {
    hide Tiled, Tailers, Headers, Listed;
    Starts(h, p);
  }

  lemma HoleIn(h: Heap, holes: set<nat>, p: nat)
    requires Sound(h, holes) && p in holes
    ensures p in h.starts && p >= h.data > FREELIST_TOP && h.starts[p] >= HEADER + 4 && p + h.starts[p] <= h.size
  {
    hide Tiled, Tailers, Headers, Listed;
    Starts(h, p);
  }

  lemma TailInHole(h: Heap, p: nat)
    requires Sound(h, {p})
    ensures Preserved(h, {p}, h.(mem := h.mem[TailOf(p, h.starts[p]) := h.starts[p]]), {p})
  {
    hide Tiled, Tailers, Headers, Listed;
    Starts(h, p);
    var mem := h.mem[TailOf(p, h.starts[p]) := h.starts[p]];
    assert SameOutside(h.mem, mem, p, p + h.starts[p]);
    hide Get;
    InHole(h, {p}, mem, p);
  }

  lemma TopNotTail(h: Heap, p: nat)
    requires Sound(h, {p})
    ensures Get(h.mem[TailOf(p, h.starts[p]) := h.starts[p]], FREELIST_TOP) == Get(h.mem, FREELIST_TOP)
  {
    hide Tiled, Tailers, Headers, Listed;
    Starts(h, p);
  }

  /** Record `r` of `n` bytes is new, and nothing else that was allocated changed. */
  ghost predicate Allocated(h: Heap, h': Heap, holes': set<nat>, r: nat, n: nat) {
    && Sound(h', holes') && h'.data == h.data
    && r !in Used(h, {}) && Used(h', holes') == Used(h, {})[r := n] && Kept(h.mem, h'.mem, Used(h, {}), h.data)
  }

  ghost predicate HeaderIs(mem: Words, r: nat, rec: ListStruct) {
    && Get(mem, r + 4) == rec.recLen && Get(mem, r + 8) == rec.keyLen && Get(mem, r + 12) == rec.dataLen
    && Get(mem, r + 16) == rec.fullHash && Get(mem, r + 20) == rec.magic
  }

  /** What is known of element k of the list. */
  lemma FreeRecord(h: Heap, k: nat)
    requires Sound(h, {}) && k < |h.list|
    ensures var p := h.list[k];
            && p in h.starts && p !in Used(h, {}) && h.starts[p] == Get(h.mem, p + 4) + HEADER
            && p >= h.data > FREELIST_TOP && h.starts[p] >= HEADER + 4 && p + h.starts[p] <= h.size
            && Get(h.mem, TailOf(p, h.starts[p])) == h.starts[p] && h.starts[p] % 4 == 0
  {
    hide Tiled, Linked, Get;
    assert h.list[k] in h.list;
    Starts(h, h.list[k]);
  }

  /** The whole of a free record taken. */
  lemma WholeFree(h: Heap, h1: Heap, p: nat, rec: ListStruct)
    requires Sound(h1, {p}) && Used(h1, {p}) == Used(h, {}) && Kept(h.mem, h1.mem, Used(h, {}), h.data)
    requires p !in Used(h, {}) && h1.data == h.data
    requires h1.starts[p] == HEADER + rec.recLen && Get(h1.mem, TailOf(p, h1.starts[p])) == h1.starts[p]
    requires rec.magic == TDB_MAGIC
    ensures Allocated(h, h1.(mem := Written(h1.mem, p, rec)), {}, p, HEADER + rec.recLen)
    ensures HeaderIs(Written(h1.mem, p, rec), p, rec)
  {
    hide Tiled, Tailers, Headers, Listed, Kept, Used;
    var mem := Written(h1.mem, p, rec);
    Starts(h1, p);
    assert SameOutside(h1.mem, mem, p, p + h1.starts[p]);
    assert Filled(h1.(mem := mem), p);
    assert HeaderIs(mem, p, rec);
    hide Get, Written;
    InHole(h1, {p}, mem, p);
    assert {p} - {p} == {};
    Close(h1.(mem := mem), {p}, p);
    KeptTwice(h.mem, h1.mem, mem, Used(h, {}), h.data);
  }

  /** The first part of a free record taken, the rest left as a hole. */
  lemma SplitFree(h: Heap, h1: Heap, p: nat, rec: ListStruct, q: nat)
    requires Sound(h1, {p}) && Used(h1, {p}) == Used(h, {}) && Kept(h.mem, h1.mem, Used(h, {}), h.data)
    requires p !in Used(h, {}) && h1.data == h.data
    requires rec.magic == TDB_MAGIC && rec.recLen % 4 == 0 && rec.recLen >= 4
    requires HEADER + rec.recLen <= h1.starts[p] - (HEADER + 4)
    requires q == p + HEADER + rec.recLen
    ensures var n := HEADER + rec.recLen;
            var mem := Written(h1.mem, p, rec)[TailOf(p, n) := n];
            var h2 := Carved(h1.(mem := mem), p, n);
            Allocated(h, h2, {q}, p, n) && HeaderIs(mem, p, rec)
  {
    hide Tiled, Tailers, Headers, Listed, Kept, Used;
    var n := HEADER + rec.recLen;
    var mem := Written(h1.mem, p, rec)[TailOf(p, n) := n];
    Starts(h1, p);
    assert SameOutside(h1.mem, mem, p, p + h1.starts[p]);
    var h2 := Carved(h1.(mem := mem), p, n);
    assert Get(mem, TailOf(p, n)) == n && Get(mem, p + 4) == rec.recLen && Get(mem, p + 20) == TDB_MAGIC;
    assert HeaderIs(mem, p, rec);
    hide Get, Written;
    InHole(h1, {p}, mem, p);
    Carve(h1.(mem := mem), {p}, p, n);
    assert Filled(h2, p);
    assert {p} + {q} - {p} == {q};
    Close(h2, {p} + {q}, p);
    KeptTwice(h.mem, h1.mem, mem, Used(h, {}), h.data);
  }

  lemma KeptFewer(mem: Words, mem': Words, used: map<nat, nat>, p: nat, n: nat, data: nat)
    requires Kept(mem, mem', used[p := n], data) && p !in used
    ensures Kept(mem, mem', used, data)
  {
    forall w | Inside(used, w)
      ensures Inside(used[p := n], w)
    {
      var o :| o in used && o <= w < o + used[o];
      assert o in used[p := n] && used[p := n][o] == used[o];
    }
  }

  lemma KeptWord(mem: Words, mem': Words, used: map<nat, nat>, data: nat, p: nat, w: nat)
    requires Kept(mem, mem', used, data) && p in used && p <= w < p + used[p]
    ensures Get(mem', w) == Get(mem, w)
  {
    assert Inside(used, w);
  }

  lemma AllocatedBySplit(h: Heap, h2: Heap, h3: Heap, p: nat, rec: ListStruct, q: nat)
    requires Allocated(h, h2, {q}, p, HEADER + rec.recLen) && HeaderIs(h2.mem, p, rec) && Preserved(h2, {q}, h3, {})
    ensures Allocated(h, h3, {}, p, HEADER + rec.recLen) && HeaderIs(h3.mem, p, rec)
  {
    hide Sound, Kept, Used, Get, Inside;
    var n, used := HEADER + rec.recLen, Used(h, {});
    KeptWord(h2.mem, h3.mem, used[p := n], h.data, p, p + 4);
    KeptWord(h2.mem, h3.mem, used[p := n], h.data, p, p + 8);
    KeptWord(h2.mem, h3.mem, used[p := n], h.data, p, p + 12);
    KeptWord(h2.mem, h3.mem, used[p := n], h.data, p, p + 16);
    KeptWord(h2.mem, h3.mem, used[p := n], h.data, p, p + 20);
    KeptFewer(h2.mem, h3.mem, used, p, n, h.data);
    KeptTwice(h.mem, h2.mem, h3.mem, used, h.data);
  }

  lemma AllocatedSound(h: Heap, h': Heap, holes': set<nat>, r: nat, n: nat)
    requires Allocated(h, h', holes', r, n)
    ensures Sound(h', holes')
  {
    hide Sound;
  }

  lemma TailKept(h: Heap, k: nat)
    requires Sound(h, {}) && k < |h.list|
    ensures var p := h.list[k];
            p in h.starts && Get(h.mem[PtrTo(FREELIST_TOP, h.list, k) := Elem(h.list, k + 1)],
                TailOf(p, h.starts[p])) == h.starts[p]
  {
    hide Tiled, Linked, Coalesced, PtrTo, Elem, Headers;
    FreeRecord(h, k);
    PtrIsStart(h, {}, k);
    StartsApart(h, h.list[k], PtrTo(FREELIST_TOP, h.list, k));
  }

  // ---------- the search ----------

  /** Space after the header of list element j. */
  ghost function SizeAt(h: Heap, j: nat): int
  {
    if j < |h.list| && h.list[j] in h.starts then h.starts[h.list[j]] - HEADER else 0
  }

  /** No free record is long enough. */
  ghost predicate NoFit(h: Heap, length: nat) {
    forall j :: 0 <= j < |h.list| ==> SizeAt(h, j) < length
  }

  /** Free record `p` is long enough, and less than twice as long as needed or the shortest that is long enough. */
  ghost predicate GoodFit(h: Heap, p: nat, length: nat) {
    && p in h.list && p in h.starts && h.starts[p] - HEADER >= length
    && (h.starts[p] - HEADER < 2 * length
        || forall j :: 0 <= j < |h.list| && SizeAt(h, j) >= length ==> h.starts[p] - HEADER <= SizeAt(h, j))
  }

  lemma FreeMagic(h: Heap, k: nat)
    requires Sound(h, {}) && k < |h.list|
    ensures Get(h.mem, h.list[k] + 20) == TDB_FREE_MAGIC
  {
    hide Tiled, Tailers, Linked, Get;
    assert h.list[k] in h.list;
  }

  lemma NextInside(h: Heap, k: nat)
    requires Sound(h, {}) && k < |h.list|
    ensures Get(h.mem, h.list[k]) + HEADER <= h.size
  {
    hide Sound, Get;
    SizeAligned(h);
    ListAt(h, {}, k + 1);
    PtrNext(FREELIST_TOP, h.list, k);
    ElemAt(h.list, k + 1);
  }

  lemma FitThere(h: Heap, p: nat, length: nat)
    requires GoodFit(h, p, length)
    ensures !NoFit(h, length) && p in h.starts && h.starts[p] - HEADER >= length
  {
    var j :| 0 <= j < |h.list| && h.list[j] == p;
    assert SizeAt(h, j) >= length;
  }

  lemma RoomAfter(h: Heap, length: nat)
    requires h.list != [] && h.list[0] in h.starts && h.starts[h.list[0]] >= (length + HEADER) * 10
    ensures !NoFit(h, length)
  {
    assert SizeAt(h, 0) >= length;
  }

  lemma AllocatedAfter(h0: Heap, h1: Heap, h2: Heap, r: nat, n: nat)
    requires Preserved(h0, {}, h1, {}) && Allocated(h1, h2, {}, r, n)
    ensures Allocated(h0, h2, {}, r, n)
  {
    hide Sound, Used, Kept;
    KeptTwice(h0.mem, h1.mem, h2.mem, Used(h0, {}), h0.data);
  }

  lemma SizeAligned(h: Heap)
    requires Sound(h, {})
    ensures h.size % 4 == 0 && FREELIST_TOP < h.data <= h.size
  {
    hide Tailers, Headers, Listed, Coalesced;
  }

  lemma ExtendPreserves(h: Heap, mem: Words, n: nat)
    requires Sound(h, {}) && n % 4 == 0 && n >= HEADER + 4 && h.size % 4 == 0
    requires mem == h.mem + (map w: nat | h.size <= w < h.size + n && w % 4 == 0 :: TDB_PAD_U32)
    ensures h.size !in h.starts && Preserved(h, {}, Extended(h, mem, n), {h.size})
  {
    hide Sound, Used, Kept;
    assert SameOutside(h.mem, mem, h.size, h.size + n);
    hide Get;
    assert {} + {h.size} == {h.size};
    Extend(h, {}, mem, n);
  }

  // ---------- what users of the records write ----------

  /** The first word of an allocated record, or a word of the header other than the list head, may hold anything. */
  lemma OtherPointer(h: Heap, x: nat, v: nat)
    requires Sound(h, {}) && (x in Used(h, {}) || (x < h.data && x != FREELIST_TOP))
    ensures Sound(h.(mem := h.mem[x := v]), {}) && Used(h.(mem := h.mem[x := v]), {}) == Used(h, {})
  {
    hide Tiled, Tailers, Headers, Linked;
    PointerHeaders(h, {}, x, v);
    PointerTailers(h, {}, x, v);
    SameTiles(h, h.(mem := h.mem[x := v]));
    if x in h.starts {
      RecordIn(h, {}, x);
    } else if x in h.list {
      RecordIn(h, {}, x);
    }
    OtherList(h, x, v);
  }

  lemma OtherList(h: Heap, x: nat, v: nat)
    requires Linked(h.mem, FREELIST_TOP, h.list) && x !in h.list && x != FREELIST_TOP
    ensures Linked(h.mem[x := v], FREELIST_TOP, h.list)
  {
  }

  /**
   The owner of an allocated record may write its header and body, up to the size at its end, as long
   as the header keeps the size and does not mark the record free: no other record, free or allocated,
   changes in any byte, and no size at the end of a record, its own included.
   */
  lemma OwnRecord(h: Heap, p: nat, mem: Words)
    requires Sound(h, {}) && p in Used(h, {}) && SameOutside(h.mem, mem, p, TailOf(p, h.starts[p]))
    requires Get(mem, p + 4) == Get(h.mem, p + 4) && Get(mem, p + 20) != TDB_FREE_MAGIC
    ensures Sound(h.(mem := mem), {}) && Used(h.(mem := mem), {}) == Used(h, {})
    ensures Kept(h.mem, mem, Used(h, {}) - {p}, h.data) && Get(mem, TailOf(p, h.starts[p])) == h.starts[p]
  {
    hide Tiled, Tailers, Headers, Listed, Used, Get, Kept;
    FreeingRecord(h, h.(mem := mem), p);
    Open(h, {}, p);
    assert {} + {p} == {p} && {p} - {p} == {};
    Starts(h, p);
    OwnTail(h, p);
    OwnSize(h, p);
    assert SameOutside(h.mem, mem, p, p + h.starts[p]);
    assert Filled(h.(mem := mem), p);
    hide SameOutside;
    InHole(h, {p}, mem, p);
    Close(h.(mem := mem), {p}, p);
    assert (Used(h, {}) - {p})[p := h.starts[p]] == Used(h, {}) by { UsedSize(h, p); }
  }

  lemma OwnSize(h: Heap, p: nat)
    requires Sound(h, {}) && p in Used(h, {})
    ensures p in h.starts && Get(h.mem, p + 4) == h.starts[p] - HEADER && Get(h.mem, p + 20) != TDB_FREE_MAGIC
    ensures p % 4 == 0
    ensures h.starts[p] % 4 == 0
  {
    hide Tailers, Listed, Get, Coalesced;
  }

  lemma OwnTail(h: Heap, p: nat)
    requires Sound(h, {}) && p in Used(h, {})
    ensures Get(h.mem, TailOf(p, h.starts[p])) == h.starts[p] && p in h.starts
  {
    hide Tiled, Headers, Listed, Get, Coalesced;
  }

  lemma UsedSize(h: Heap, p: nat)
    requires p in Used(h, {})
    ensures p in h.starts && Used(h, {})[p] == h.starts[p]
  {
  }

  // ---------- whole runs ----------

  /**
   What is left of a free record when the front of it is taken is on the free list, as one record that
   reaches at least to where the old one ended.
   */
  lemma RestIsFree(h: Heap, h': Heap, r: nat, n: nat)
    requires Sound(h, {}) && r in h.list && r in h.starts && n < h.starts[r]
    requires Allocated(h, h', {}, r, n) && h'.size == h.size
    ensures r + n in h'.list && r + n in h'.starts && r + n + h'.starts[r + n] >= r + h.starts[r]
  {
    hide Sound, Used, Kept;
    RecordIn(h, {}, r);
    UsedSize(h', r);
    RecordEnds(h', r);
    NotUsedIsFree(h, h', r, n, r + n);
    RecordEnds(h', r + n);
    var end := r + n + h'.starts[r + n];
    if end < r + h.starts[r] {
      NotUsedIsFree(h, h', r, n, end);
    }
  }

  /** A record that begins inside a free record of before is none of those allocated since. */
  lemma NotUsedIsFree(h: Heap, h': Heap, r: nat, n: nat, q: nat)
    requires Sound(h, {}) && r in h.starts && r < q < r + h.starts[r] && q in h'.starts
    requires Used(h', {}) == Used(h, {})[r := n]
    ensures q in h'.list
  {
    hide Tailers, Headers, Listed, Coalesced;
    if q in h.starts {
      Disjoint(h, r, q);
    }
    assert q !in Used(h, {});
    assert q !in Used(h', {});
  }

  lemma RecordEnds(h: Heap, o: nat)
    requires Sound(h, {}) && o in h.starts
    ensures h.starts[o] > 0 && (o + h.starts[o] == h.size || o + h.starts[o] in h.starts)
    ensures o in h.list ==> o + h.starts[o] !in h.list
  {
    hide Tailers, Headers, Listed, Apart;
  }

  /** Freeing an allocated record takes it, and it alone, from the allocated ones. */
  lemma FreeingRecord(h: Heap, h': Heap, p: nat)
    requires Sound(h, {}) && p in Used(h, {})
    ensures Sound(h, {p}) && (Preserved(h, {p}, h', {}) ==> Used(h', {}) == Used(h, {}) - {p})
    ensures Preserved(h, {p}, h', {}) ==> Kept(h.mem, h'.mem, Used(h, {}) - {p}, h.data)
  {
    hide Sound, Used, Kept;
    Open(h, {}, p);
    assert {} + {p} == {p};
  }

  lemma {:induction false} CoveredFrom(h: Heap, o: nat, w: nat) returns (p: nat)
    requires Tiled(h) && o in h.starts && o <= w < h.size
    ensures p in h.starts && p <= w < p + h.starts[p]
    decreases w - o
  {
    hide Tiled;
    FitsIn(h, o);
    if w < o + h.starts[o] {
      p := o;
    } else {
      p := CoveredFrom(h, o + h.starts[o], w);
    }
  }

  /**
   No byte of the data region is lost: each is in exactly one record, and that one is allocated or on the
   free list.
   */
  lemma EveryByteInOneRecord(h: Heap, w: nat)
    requires Sound(h, {}) && h.data <= w < h.size
    ensures exists p :: p in h.starts && p <= w < p + h.starts[p]
    ensures forall p, q ::
              p in h.starts && q in h.starts && p <= w < p + h.starts[p] && q <= w < q + h.starts[q] ==> p == q
    ensures forall p :: p in h.starts ==> (p in Used(h, {}) <==> p !in h.list)
  {
    hide Tailers, Headers, Linked, Coalesced;
    var p := CoveredFrom(h, h.data, w);
    forall p, q | p in h.starts && q in h.starts && p <= w < p + h.starts[p] && q <= w < q + h.starts[q]
      ensures p == q
    {
      if p != q {
        Disjoint(h, p, q);
      }
    }
  }
}
