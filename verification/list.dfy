/** The intrusive doubly linked list of src/list.c and
    include/libinac-ce/list.h.

    Nodes live in a heap of addresses. A list header names its first node;
    the `next` links run to the last node, whose `next` is NULL, and the
    `prev` links run back, with the first node's `prev` naming the last node.
    `Valid(s, ids)` says that the header and the heap describe the sequence
    of node addresses `ids` in that way. Operations take that sequence as a
    witness; their bodies follow only the pointers.

    Nodes handed back with `node_free` go to a stack of recycled addresses,
    `slots[1..lastFree]`, which `node_new` pops before carving a new node
    out of the list's pool. Data pointers are addresses, 0 being NULL.
 */
module List {
  import opened Wrappers
  import opened ResultCodes
  import ListSort

  type NodeId = nat
  type Addr = nat

  /** A pool the list carves its nodes from; its bookkeeping is MemPool's. */
  type PoolRef = nat

  /** INA_LIST_DEFAULT_SIZE */
  const DEFAULT_SIZE: nat := 256
  /** INA_LIST_CF_NOMALLOC */
  const CF_NOMALLOC: bv32 := 1
  /** INA_LIST_CF_DEFAULT */
  const CF_DEFAULT: bv32 := 0

  datatype Node = Node(next: Option<NodeId>, prev: Option<NodeId>, data: Addr)

  type Heap = map<NodeId, Node>

  /** struct ina_list_s. `slots` is the `first_free` array, empty when it is
      NULL. */
  datatype List = List(head: Option<NodeId>, cf: bv32, count: nat, maxRecyclable: nat,
                       slots: seq<Option<NodeId>>, lastFree: nat, mp: Option<PoolRef>)

  datatype State = State(heap: Heap, list: List)

  /** The `next` links of the heap run through `ids` and end in NULL. */
  predicate Chain(h: Heap, ids: seq<NodeId>) {
    (forall i | 0 <= i < |ids| :: ids[i] in h)
    && (forall i | 0 <= i < |ids| - 1 :: h[ids[i]].next == Some(ids[i + 1]))
    && (|ids| > 0 ==> h[ids[|ids| - 1]].next == None)
  }

  predicate Distinct(ids: seq<NodeId>) {
    forall i, j | 0 <= i < j < |ids| :: ids[i] != ids[j]
  }

  /** The header and the heap link the nodes `ids`, in that order. */
  predicate Valid(s: State, ids: seq<NodeId>) {
    var h, l := s.heap, s.list;
    |ids| == l.count && Distinct(ids) && Chain(h, ids)
    && (forall i | 0 < i < |ids| :: h[ids[i]].prev == Some(ids[i - 1]))
    && (if |ids| == 0 then l.head == None
        else l.head == Some(ids[0]) && h[ids[0]].prev == Some(ids[|ids| - 1]))
  }

  /** The walk `node = node->next` has reached the `i`-th node, or NULL past
      the last one. */
  function Cursor(ids: seq<NodeId>, i: nat): Option<NodeId> {
    if i < |ids| then Some(ids[i]) else None
  }

  /** The data pointers of the nodes `ids`. */
  function Data(h: Heap, ids: seq<NodeId>): (d: seq<Addr>)
    requires forall i | 0 <= i < |ids| :: ids[i] in h
    ensures |d| == |ids|
    ensures forall i | 0 <= i < |ids| :: d[i] == h[ids[i]].data
  {
    seq(|ids|, i requires 0 <= i < |ids| => h[ids[i]].data)
  }

  /** Nodes other than `touched` keep their links and data. */
  predicate Untouched(h: Heap, h2: Heap, touched: seq<NodeId>) {
    h2.Keys == h.Keys && forall k | k in h && k !in touched :: h2[k] == h[k]
  }

  /** Only links change: every node keeps its data pointer. */
  predicate SameData(h: Heap, h2: Heap) {
    h2.Keys == h.Keys && forall k | k in h :: h2[k].data == h[k].data
  }

  /** The sequence without its `i`-th element. */
  function Without<T>(s: seq<T>, i: nat): (r: seq<T>)
    requires i < |s|
    ensures |r| == |s| - 1
    ensures forall j | 0 <= j < i :: r[j] == s[j]
    ensures forall j | i <= j < |r| :: r[j] == s[j + 1]
  {
    s[..i] + s[i + 1..]
  }

  /** The index of the first element satisfying `p`, or the length when
      there is none. */
  function First(d: seq<Addr>, p: Addr -> bool): (k: nat)
    ensures k <= |d|
    ensures k < |d| ==> p(d[k])
    ensures forall j | 0 <= j < k :: !p(d[j])
  {
    if |d| == 0 then 0
    else if p(d[0]) then 0
    else 1 + First(d[1..], p)
  }

  /** Two first indices of the same property coincide. */
  lemma FirstUnique(d: seq<Addr>, p: Addr -> bool, k: nat)
    requires k <= |d| && (k < |d| ==> p(d[k])) && (forall j | 0 <= j < k :: !p(d[j]))
    ensures k == First(d, p)
  {
  }

  /** Data pointer equal to `d`: the test of ina_list_remove_data. */
  function Is(d: Addr): Addr -> bool {
    (x: Addr) => x == d
  }

  /** `compare_fn(data, find_arg) == 0`: the test of ina_list_find. */
  function Hits(cmp: ListSort.Compare, arg: Addr): Addr -> bool {
    (x: Addr) => cmp(x, arg) == 0
  }

  /** A failing callback code: where ina_list_foreach stops. */
  function Fails(f: Addr -> Code): Addr -> bool {
    (x: Addr) => Failed(f(x))
  }

  /** The walk `node = node->next` from the `i`-th node to the first node
      whose data satisfies `p`: the index it stops at, or the length when it
      runs into NULL. */
  function Seek(h: Heap, cur: Option<NodeId>, p: Addr -> bool, ids: seq<NodeId>, i: nat): (k: nat)
    requires Chain(h, ids) && i <= |ids| && cur == Cursor(ids, i)
    ensures i <= k <= |ids|
    ensures k < |ids| ==> p(h[ids[k]].data)
    ensures forall j | i <= j < k :: !p(h[ids[j]].data)
    decreases |ids| - i
  {
    match cur
    case None => i
    case Some(c) => if p(h[c].data) then i else Seek(h, h[c].next, p, ids, i + 1)
  }

  /** Walking the pointers from the head finds the first match in the data
      sequence. */
  lemma SeekIsFirst(h: Heap, p: Addr -> bool, ids: seq<NodeId>)
    requires Chain(h, ids)
    ensures Seek(h, Cursor(ids, 0), p, ids, 0) == First(Data(h, ids), p)
  {
    FirstUnique(Data(h, ids), p, Seek(h, Cursor(ids, 0), p, ids, 0));
  }

  // ---------------------------------------------------------------------
  // Insertion
  // ---------------------------------------------------------------------

  /** ina_list_insert_tail: the node becomes the new last node. */
  function InsertTail(s: State, n: NodeId, ids: seq<NodeId>): (r: State)
    requires Valid(s, ids) && n in s.heap && n !in ids
    ensures Valid(r, ids + [n])
    ensures Data(r.heap, ids + [n]) == Data(s.heap, ids) + [s.heap[n].data]
    ensures Untouched(s.heap, r.heap, ids + [n])
    ensures r.list == s.list.(head := r.list.head, count := s.list.count + 1)
  {
    var h, l := s.heap, s.list;
    var l2 := l.(count := l.count + 1);
    match l.head
    case None =>
      State(h[n := h[n].(prev := Some(n), next := None)], l2.(head := Some(n)))
    case Some(hd) =>
      var tail := h[hd].prev.value;
      var h1 := h[n := h[n].(prev := Some(tail))];
      var h2 := h1[hd := h1[hd].(prev := Some(n))];
      var h3 := h2[n := h2[n].(next := None)];
      var h4 := h3[tail := h3[tail].(next := Some(n))];
      State(h4, l2)
  }

  /** ina_list_insert_head as written: the node is linked in front of the
      head, but a non-empty list's `head` still names the old first node. */
  function InsertHeadAsWritten(s: State, n: NodeId, ids: seq<NodeId>): (r: State)
    requires Valid(s, ids) && n in s.heap && n !in ids
    ensures ids == [] ==> Valid(r, [n])
    ensures r.list.count == s.list.count + 1
    ensures ids != [] ==> r.list == s.list.(count := s.list.count + 1)
  {
    var h, l := s.heap, s.list;
    var l2 := l.(count := l.count + 1);
    match l.head
    case None =>
      State(h[n := h[n].(prev := Some(n), next := None)], l2.(head := Some(n)))
    case Some(hd) =>
      var h1 := h[n := h[n].(prev := h[hd].prev)];
      var h2 := h1[hd := h1[hd].(prev := Some(n))];
      var h3 := h2[n := h2[n].(next := Some(hd))];
      State(h3, l2)
  }

  /** ina_list_insert_head with the head moved to the new node. */
  function InsertHead(s: State, n: NodeId, ids: seq<NodeId>): (r: State)
    requires Valid(s, ids) && n in s.heap && n !in ids
    ensures Valid(r, [n] + ids)
    ensures Data(r.heap, [n] + ids) == [s.heap[n].data] + Data(s.heap, ids)
    ensures Untouched(s.heap, r.heap, [n] + ids)
    ensures r.list == s.list.(head := Some(n), count := s.list.count + 1)
  {
    var h, l := s.heap, s.list;
    var l2 := l.(head := Some(n), count := l.count + 1);
    match l.head
    case None =>
      State(h[n := h[n].(prev := Some(n), next := None)], l2)
    case Some(hd) =>
      var h1 := h[n := h[n].(prev := h[hd].prev)];
      var h2 := h1[hd := h1[hd].(prev := Some(n))];
      var h3 := h2[n := h2[n].(next := Some(hd))];
      State(h3, l2)
  }

  /** Two `next` chains from the same first node agree node by node, and
      one ends where the other does. */
  lemma {:induction false} ChainAgree(h: Heap, a: seq<NodeId>, b: seq<NodeId>, k: nat)
    requires Chain(h, a) && Chain(h, b) && 0 < |a| && 0 < |b| && a[0] == b[0]
    requires k < |a| && k < |b|
    ensures a[k] == b[k]
    ensures k + 1 < |a| <==> k + 1 < |b|
  {
    if k > 0 {
      ChainAgree(h, a, b, k - 1);
    }
    if k + 1 < |a| {
      assert h[a[k]].next == Some(a[k + 1]);
    }
    if k + 1 < |b| {
      assert h[b[k]].next == Some(b[k + 1]);
    }
  }

  /** The `next` links determine the list: two chains from the same first
      node are the same sequence. */
  lemma ChainUnique(h: Heap, a: seq<NodeId>, b: seq<NodeId>)
    requires Chain(h, a) && Chain(h, b) && 0 < |a| && 0 < |b| && a[0] == b[0]
    ensures a == b
  {
    if |a| < |b| {
      ChainAgree(h, a, b, |a| - 1);
      assert false;
    } else if |b| < |a| {
      ChainAgree(h, a, b, |b| - 1);
      assert false;
    } else {
      forall k | 0 <= k < |a|
        ensures a[k] == b[k]
      {
        ChainAgree(h, a, b, k);
      }
    }
  }

  /** Inserting at the head of a non-empty list as written loses the node:
      walking from `head` still visits exactly the old nodes, while the count
      has grown, so the result describes no list at all. */
  lemma InsertHeadAsWrittenLosesNode(s: State, n: NodeId, ids: seq<NodeId>, other: seq<NodeId>)
    requires Valid(s, ids) && n in s.heap && n !in ids && ids != []
    ensures Chain(InsertHeadAsWritten(s, n, ids).heap, ids)
    ensures InsertHeadAsWritten(s, n, ids).list.head == Some(ids[0])
    ensures !Valid(InsertHeadAsWritten(s, n, ids), other)
  {
    var r := InsertHeadAsWritten(s, n, ids);
    assert Chain(r.heap, ids);
    if Valid(r, other) {
      ChainUnique(r.heap, ids, other);
      assert false;
    }
  }

  // ---------------------------------------------------------------------
  // Removal
  // ---------------------------------------------------------------------

  /** A listed node's neighbours are listed nodes; only the first node
      lacks a predecessor in the `prev` sense used by ina_list_remove. */
  lemma Neighbours(s: State, ids: seq<NodeId>, n: NodeId)
    requires Valid(s, ids) && n in ids
    ensures s.list.head.Some? && s.list.head.value in s.heap
    ensures s.heap[n].next.Some? ==> s.heap[n].next.value in s.heap
    ensures s.list.head != Some(n) ==> s.heap[n].prev.Some? && s.heap[n].prev.value in s.heap
  {
    var i :| 0 <= i < |ids| && ids[i] == n;
    if i + 1 < |ids| {
      assert s.heap[n].next == Some(ids[i + 1]);
    }
    if i > 0 {
      assert s.heap[n].prev == Some(ids[i - 1]);
    }
  }

  /** ina_list_remove: the node's neighbours are linked to each other and the
      node itself is left as it was. */
  function Remove(s: State, n: NodeId, ids: seq<NodeId>): (r: State)
    requires Valid(s, ids) && n in ids
    ensures SameData(s.heap, r.heap) && r.heap[n] == s.heap[n]
    ensures r.list == s.list.(head := r.list.head, count := s.list.count - 1)
  {
    Neighbours(s, ids, n);
    var h, l := s.heap, s.list;
    var hd := l.head.value;
    var nd := h[n];
    var h1 := if nd.next.Some? then h[nd.next.value := h[nd.next.value].(prev := nd.prev)]
              else h[hd := h[hd].(prev := nd.prev)];
    if hd == n then State(h1, l.(head := nd.next, count := l.count - 1))
    else
      var p := nd.prev.value;
      State(h1[p := h1[p].(next := nd.next)], l.(count := l.count - 1))
  }

  /** Removing the `i`-th node leaves the list of the other nodes, in order,
      and touches no node outside the list. */
  lemma RemoveUnlinks(s: State, ids: seq<NodeId>, i: nat)
    requires Valid(s, ids) && i < |ids|
    ensures Valid(Remove(s, ids[i], ids), Without(ids, i))
    ensures Untouched(s.heap, Remove(s, ids[i], ids).heap, ids)
  {
    if i == 0 {
      RemoveFirst(s, ids);
    } else if i == |ids| - 1 {
      RemoveLast(s, ids);
    } else {
      RemoveInner(s, ids, i);
    }
  }

  lemma RemoveFirst(s: State, ids: seq<NodeId>)
    requires Valid(s, ids) && 0 < |ids|
    ensures Valid(Remove(s, ids[0], ids), Without(ids, 0))
    ensures Untouched(s.heap, Remove(s, ids[0], ids).heap, ids)
  {
  }

  lemma RemoveLast(s: State, ids: seq<NodeId>)
    requires Valid(s, ids) && 1 < |ids|
    ensures Valid(Remove(s, ids[|ids| - 1], ids), Without(ids, |ids| - 1))
    ensures Untouched(s.heap, Remove(s, ids[|ids| - 1], ids).heap, ids)
  {
    var n := |ids|;
    var r, w := Remove(s, ids[n - 1], ids), Without(ids, n - 1);
    assert w == ids[..n - 1];
    var p := ids[n - 2];
    assert r.heap[p].next == None && r.heap[ids[0]].prev == Some(p);
    forall j | 0 <= j < |w| - 1
      ensures r.heap[w[j]].next == Some(w[j + 1])
    {
      assert w[j] == ids[j] && w[j + 1] == ids[j + 1];
    }
    forall j | 0 < j < |w|
      ensures r.heap[w[j]].prev == Some(w[j - 1])
    {
      assert w[j] == ids[j] && w[j - 1] == ids[j - 1];
    }
  }

  lemma RemoveInner(s: State, ids: seq<NodeId>, i: nat)
    requires Valid(s, ids) && 0 < i < |ids| - 1
    ensures Valid(Remove(s, ids[i], ids), Without(ids, i))
    ensures Untouched(s.heap, Remove(s, ids[i], ids).heap, ids)
  {
    var r, w := Remove(s, ids[i], ids), Without(ids, i);
    var p, q := ids[i - 1], ids[i + 1];
    assert r.heap[p].next == Some(q) && r.heap[q].prev == Some(p);
    forall j | 0 <= j < |w| - 1
      ensures r.heap[w[j]].next == Some(w[j + 1])
    {
      if j < i - 1 {
        assert w[j] == ids[j] && w[j + 1] == ids[j + 1];
      } else if j >= i {
        assert w[j] == ids[j + 1] && w[j + 1] == ids[j + 2];
      }
    }
    assert w[|w| - 1] == ids[|ids| - 1];
  }

  /** The data of the remaining nodes, in order. */
  lemma RemoveKeepsData(s: State, ids: seq<NodeId>, i: nat)
    requires Valid(s, ids) && i < |ids|
    ensures Data(Remove(s, ids[i], ids).heap, Without(ids, i)) == Without(Data(s.heap, ids), i)
  {
  }

  // ---------------------------------------------------------------------
  // Creation and the recycled-node stack
  // ---------------------------------------------------------------------

  /** ina_list_new: an empty list recycling up to INA_LIST_DEFAULT_SIZE
      nodes. Without INA_LIST_CF_NOMALLOC, ina_list_resize gives it a pool
      and a zeroed array of INA_LIST_DEFAULT_SIZE recycled-node slots; with
      it, neither. */
  function New(cf: bv32, pool: PoolRef): (l: List)
    ensures l.head == None && l.count == 0 && l.cf == cf && l.lastFree == 0
    ensures l.maxRecyclable == DEFAULT_SIZE
    ensures cf & CF_NOMALLOC != 0 <==> l.mp == None
    ensures |l.slots| == if cf & CF_NOMALLOC != 0 then 0 else DEFAULT_SIZE
  {
    if cf & CF_NOMALLOC != 0 then List(None, cf, 0, DEFAULT_SIZE, [], 0, None)
    else List(None, cf, 0, DEFAULT_SIZE, seq(DEFAULT_SIZE, _ => None), 0, Some(pool))
  }

  /** The recycled nodes `slots[1..lastFree]` are distinct heap nodes none of
      which is in the list `ids`. */
  predicate Recycled(s: State, ids: seq<NodeId>) {
    var l := s.list;
    (l.lastFree == 0 || l.lastFree < |l.slots|)
    && (forall i | 1 <= i <= l.lastFree ::
       i < |l.slots| && l.slots[i].Some? && l.slots[i].value in s.heap && l.slots[i].value !in ids)
    && (forall i, j | 1 <= i < j <= l.lastFree && j < |l.slots| :: l.slots[i] != l.slots[j])
  }

  /** A list header with its recycled-node stack in order. */
  predicate Good(s: State, ids: seq<NodeId>) {
    Valid(s, ids) && Recycled(s, ids)
  }

  /** A new list is empty, whatever the heap holds. */
  lemma NewIsEmpty(h: Heap, cf: bv32, pool: PoolRef)
    ensures Good(State(h, New(cf, pool)), [])
  {
  }

  /** ina_list_node_new has somewhere to take a node from: a recycled node,
      or the list's pool. A NOMALLOC list has no pool, and with no recycled
      node the source passes a NULL pool to ina_mempool_dalloc. */
  predicate CanSupply(l: List) {
    l.lastFree > 0 || l.mp.Some?
  }

  /** The node ina_list_node_new hands out, and the list afterwards. */
  datatype Fresh = Fresh(state: State, node: NodeId)

  /** ina_list_node_new: the most recently recycled node if there is one;
      otherwise `spare`, a block of the list's pool whose contents `junk`
      are whatever the pool held there. */
  function NodeNew(s: State, spare: NodeId, junk: Node): (r: Fresh)
    requires Recycled(s, []) && CanSupply(s.list) && spare !in s.heap
    ensures r.node in r.state.heap
    ensures r.state.list == s.list.(lastFree := r.state.list.lastFree)
    ensures s.list.lastFree > 0 ==>
              r.state.heap == s.heap && r.state.list.lastFree == s.list.lastFree - 1
    ensures s.list.lastFree == 0 ==> r == Fresh(State(s.heap[spare := junk], s.list), spare)
  {
    var l := s.list;
    if l.lastFree != 0 then Fresh(State(s.heap, l.(lastFree := l.lastFree - 1)), l.slots[l.lastFree].value)
    else Fresh(State(s.heap[spare := junk], l), spare)
  }

  /** A node handed out is in neither the list nor the recycled stack, and
      the list is as it was. */
  lemma NodeNewKeepsGood(s: State, ids: seq<NodeId>, spare: NodeId, junk: Node)
    requires Good(s, ids) && CanSupply(s.list) && spare !in s.heap
    ensures NodeNew(s, spare, junk).node !in ids
    ensures Valid(NodeNew(s, spare, junk).state, ids)
    ensures Recycled(NodeNew(s, spare, junk).state, ids + [NodeNew(s, spare, junk).node])
    ensures Recycled(NodeNew(s, spare, junk).state, [NodeNew(s, spare, junk).node] + ids)
    ensures Data(NodeNew(s, spare, junk).state.heap, ids) == Data(s.heap, ids)
  {
  }

  /** ina_list_node_free has room for one more recycled node. */
  predicate Pushable(l: List) {
    l.lastFree < l.maxRecyclable && l.lastFree + 1 < |l.slots|
  }

  /** ina_list_node_free as written: below `max_recyclable` it stores the
      node at `first_free[last_free + 1]`. `None` is a store outside the
      array, or through a NULL array. */
  function NodeFreeAsWritten(l: List, n: NodeId): (r: Option<List>)
    ensures r.None? <==> l.lastFree < l.maxRecyclable && !Pushable(l)
    ensures r.Some? && l.lastFree < l.maxRecyclable ==>
              r.value.lastFree == l.lastFree + 1 < |r.value.slots|
              && r.value.slots[r.value.lastFree] == Some(n)
    ensures l.lastFree >= l.maxRecyclable ==> r == Some(l)
    ensures r.Some? ==> |r.value.slots| == |l.slots| && r.value.maxRecyclable == l.maxRecyclable
  {
    if l.lastFree < l.maxRecyclable then
      if l.lastFree + 1 < |l.slots| then
        Some(l.(lastFree := l.lastFree + 1, slots := l.slots[l.lastFree + 1 := Some(n)]))
      else None
    else Some(l)
  }

  /** Repeated ina_list_node_free as written. While the array has room,
      each free pushes one node. */
  function FreeAllAsWritten(l: List, ns: seq<NodeId>): (r: Option<List>)
    ensures l.lastFree + |ns| < |l.slots| && l.lastFree + |ns| <= l.maxRecyclable ==>
              && r.Some? && r.value.lastFree == l.lastFree + |ns|
              && |r.value.slots| == |l.slots| && r.value.maxRecyclable == l.maxRecyclable
    decreases |ns|
  {
    if ns == [] then Some(l)
    else match NodeFreeAsWritten(l, ns[0])
      case None => None
      case Some(l2) => FreeAllAsWritten(l2, ns[1..])
  }

  /** A default list recycles its 255th node into the last slot of its
      array, and the 256th free stores one past the array's end. */
  lemma DefaultListOverflows(pool: PoolRef, ns: seq<NodeId>, n: NodeId)
    requires |ns| == DEFAULT_SIZE - 1
    ensures FreeAllAsWritten(New(CF_DEFAULT, pool), ns).Some?
    ensures NodeFreeAsWritten(FreeAllAsWritten(New(CF_DEFAULT, pool), ns).value, n) == None
  {
  }

  /** A list made with INA_LIST_CF_NOMALLOC has no array: its first free
      stores through NULL. */
  lemma NoMallocListOverflows(pool: PoolRef, n: NodeId)
    ensures NodeFreeAsWritten(New(CF_NOMALLOC, pool), n) == None
  {
  }

  /** ina_list_node_free, storing only into the array's own slots. */
  function NodeFree(l: List, n: NodeId): (r: List)
    ensures !Pushable(l) ==> r == l
    ensures Pushable(l) ==>
              r.lastFree == l.lastFree + 1 < |r.slots| && r.slots[r.lastFree] == Some(n)
    ensures |r.slots| == |l.slots| && forall i | 1 <= i <= l.lastFree && i < |l.slots| :: r.slots[i] == l.slots[i]
    ensures r.(lastFree := l.lastFree, slots := l.slots) == l
  {
    if Pushable(l) then l.(lastFree := l.lastFree + 1, slots := l.slots[l.lastFree + 1 := Some(n)])
    else l
  }

  /** Freeing a heap node that is outside the list keeps the stack in order. */
  lemma NodeFreeKeepsRecycled(s: State, ids: seq<NodeId>, n: NodeId)
    requires Recycled(s, ids + [n]) && n in s.heap && n !in ids
    ensures Recycled(State(s.heap, NodeFree(s.list, n)), ids)
  {
  }

  /** The stack is last-in first-out: a node freed with room to spare is the
      next one handed out, and the list is back where it was, apart from the
      stale pointer left in the popped slot. */
  lemma FreeThenNew(s: State, n: NodeId, spare: NodeId, junk: Node)
    requires Recycled(s, [n]) && n in s.heap && Pushable(s.list) && spare !in s.heap
    ensures Recycled(State(s.heap, NodeFree(s.list, n)), [])
    ensures NodeNew(State(s.heap, NodeFree(s.list, n)), spare, junk)
         == Fresh(State(s.heap, s.list.(slots := s.list.slots[s.list.lastFree + 1 := Some(n)])), n)
  {
  }

  // ---------------------------------------------------------------------
  // Data-level operations of list.h
  // ---------------------------------------------------------------------

  /** The node ina_list_node_new hands out, carrying `d`. */
  function NewWithData(s: State, d: Addr, spare: NodeId, junk: Node): (r: Fresh)
    requires Recycled(s, []) && CanSupply(s.list) && spare !in s.heap
    ensures r.node in r.state.heap && r.state.heap[r.node].data == d
  {
    var f := NodeNew(s, spare, junk);
    var h := f.state.heap;
    Fresh(State(h[f.node := h[f.node].(data := d)], f.state.list), f.node)
  }

  /** The node carrying `d` is outside the list and the stack, and the list
      is as it was. */
  lemma NewWithDataKeepsGood(s: State, d: Addr, spare: NodeId, junk: Node, ids: seq<NodeId>)
    requires Good(s, ids) && CanSupply(s.list) && spare !in s.heap
    ensures var f := NewWithData(s, d, spare, junk);
            f.node !in ids && Valid(f.state, ids) && Data(f.state.heap, ids) == Data(s.heap, ids)
            && Recycled(f.state, ids + [f.node]) && Recycled(f.state, [f.node] + ids)
  {
    NodeNewKeepsGood(s, ids, spare, junk);
  }

  /** Linking a node in keeps the recycled stack as it was. */
  lemma LinkKeepsRecycled(s: State, r: State, ids: seq<NodeId>)
    requires Recycled(s, ids) && r.heap.Keys == s.heap.Keys
    requires r.list.slots == s.list.slots && r.list.lastFree == s.list.lastFree
    ensures Recycled(r, ids)
  {
  }

  /** ina_list_insert_tail_data: a node from ina_list_node_new, carrying
      `d`, appended to the list. */
  function InsertTailData(s: State, d: Addr, spare: NodeId, junk: Node, ids: seq<NodeId>): (r: Fresh)
    requires Good(s, ids) && CanSupply(s.list) && spare !in s.heap
    ensures Good(r.state, ids + [r.node])
    ensures Data(r.state.heap, ids + [r.node]) == Data(s.heap, ids) + [d]
  {
    NewWithDataKeepsGood(s, d, spare, junk, ids);
    var f := NewWithData(s, d, spare, junk);
    var r := InsertTail(f.state, f.node, ids);
    LinkKeepsRecycled(f.state, r, ids + [f.node]);
    Fresh(r, f.node)
  }

  /** ina_list_insert_head_data, with the corrected ina_list_insert_head:
      the new node, carrying `d`, becomes the first node. */
  function InsertHeadData(s: State, d: Addr, spare: NodeId, junk: Node, ids: seq<NodeId>): (r: Fresh)
    requires Good(s, ids) && CanSupply(s.list) && spare !in s.heap
    ensures Good(r.state, [r.node] + ids)
    ensures Data(r.state.heap, [r.node] + ids) == [d] + Data(s.heap, ids)
  {
    NewWithDataKeepsGood(s, d, spare, junk, ids);
    var f := NewWithData(s, d, spare, junk);
    var r := InsertHead(f.state, f.node, ids);
    LinkKeepsRecycled(f.state, r, [f.node] + ids);
    Fresh(r, f.node)
  }

  /** ina_list_pop_data: the first node's data, read in place. The node stays
      in the list, and the code returned is the last one recorded, `lastRc`.
      On an empty list the source reads through NULL, so the list must hold
      a node. */
  function PopData(s: State, ids: seq<NodeId>, lastRc: Code): (r: (Addr, Code))
    requires Valid(s, ids) && ids != []
    ensures r.0 == Data(s.heap, ids)[0] && r.1 == lastRc
  {
    (s.heap[s.list.head.value].data, lastRc)
  }

  /** What ina_list_insert_head_data put in front is what
      ina_list_pop_data reads back. */
  lemma PopAfterInsertHead(s: State, d: Addr, spare: NodeId, junk: Node, ids: seq<NodeId>, lastRc: Code)
    requires Good(s, ids) && CanSupply(s.list) && spare !in s.heap
    ensures PopData(InsertHeadData(s, d, spare, junk, ids).state,
                    [InsertHeadData(s, d, spare, junk, ids).node] + ids, lastRc) == (d, lastRc)
  {
    var r := InsertHeadData(s, d, spare, junk, ids);
    assert Data(r.state.heap, [r.node] + ids)[0] == d;
  }

  /** An operation's result code, and the list afterwards. */
  datatype Outcome = Outcome(state: State, rc: Code)

  /** ina_list_remove_data: the first node whose data pointer is `d` is
      unlinked and recycled. */
  function RemoveData(s: State, d: Addr, ids: seq<NodeId>): (r: Outcome)
    requires Good(s, ids)
    ensures d == 0 ==> r == Outcome(s, Raise(ERR_INVALID_ARGUMENT))
    ensures d != 0 ==> (r.rc == SUCCESS <==> d in Data(s.heap, ids))
    ensures d != 0 && d !in Data(s.heap, ids) ==> r == Outcome(s, Raise(ERR_NOT_EXISTS))
  {
    if d == 0 then Outcome(s, Raise(ERR_INVALID_ARGUMENT))
    else
      var k := Seek(s.heap, s.list.head, Is(d), ids, 0);
      if k == |ids| then Outcome(s, Raise(ERR_NOT_EXISTS))
      else
        var r1 := Remove(s, ids[k], ids);
        Outcome(State(r1.heap, NodeFree(r1.list, ids[k])), SUCCESS)
  }

  /** On success ina_list_remove_data has removed exactly the first node
      carrying `d` and recycled it if the stack had room. */
  lemma RemoveDataRemovesFirst(s: State, d: Addr, ids: seq<NodeId>)
    requires Good(s, ids) && d != 0 && d in Data(s.heap, ids)
    ensures First(Data(s.heap, ids), Is(d)) < |ids|
    ensures var k := First(Data(s.heap, ids), Is(d));
            Good(RemoveData(s, d, ids).state, Without(ids, k))
            && Data(RemoveData(s, d, ids).state.heap, Without(ids, k)) == Without(Data(s.heap, ids), k)
  {
    SeekIsFirst(s.heap, Is(d), ids);
    var k := First(Data(s.heap, ids), Is(d));
    var r1 := Remove(s, ids[k], ids);
    assert RemoveData(s, d, ids).state == State(r1.heap, NodeFree(r1.list, ids[k]));
    RemoveUnlinks(s, ids, k);
    RemoveKeepsData(s, ids, k);
    RecycleRemoved(s, ids, k);
  }

  /** The node ina_list_remove unlinked may go on the recycled stack. */
  lemma RecycleRemoved(s: State, ids: seq<NodeId>, k: nat)
    requires Good(s, ids) && k < |ids|
    ensures Recycled(State(Remove(s, ids[k], ids).heap, NodeFree(Remove(s, ids[k], ids).list, ids[k])), Without(ids, k))
  {
    var r1 := Remove(s, ids[k], ids);
    var w := Without(ids, k);
    assert forall x | x in w + [ids[k]] :: x in ids;
    assert Recycled(r1, w + [ids[k]]);
    assert ids[k] !in w;
    NodeFreeKeepsRecycled(r1, w, ids[k]);
  }

  /** The callback walk of ina_list_foreach from the `i`-th node, `rc` being
      the last code the callback returned. */
  function ForeachFrom(h: Heap, cur: Option<NodeId>, f: Addr -> Code, ids: seq<NodeId>, i: nat, rc: Code): (r: Code)
    requires Chain(h, ids) && i <= |ids| && cur == Cursor(ids, i)
    ensures var k := Seek(h, cur, Fails(f), ids, i);
            r == if k < |ids| then f(h[ids[k]].data)
                 else if i == |ids| then rc
                 else f(h[ids[|ids| - 1]].data)
    decreases |ids| - i
  {
    match cur
    case None => rc
    case Some(c) =>
      var rc2 := f(h[c].data);
      if Failed(rc2) then rc2 else ForeachFrom(h, h[c].next, f, ids, i + 1, rc2)
  }

  /** ina_list_foreach: the callback's code for the first datum on which it
      fails; if it fails on none, its code for the last datum, and success on
      an empty list. */
  function Foreach(s: State, f: Addr -> Code, ids: seq<NodeId>): (rc: Code)
    requires Valid(s, ids)
    ensures var d := Data(s.heap, ids);
            var k := First(d, Fails(f));
            rc == if k < |d| then f(d[k]) else if d == [] then SUCCESS else f(d[|d| - 1])
  {
    SeekIsFirst(s.heap, Fails(f), ids);
    ForeachFrom(s.heap, s.list.head, f, ids, 0, SUCCESS)
  }

  /** ina_list_find as written: whether some datum compares equal to
      `arg`. The node found is not stored through `node`. */
  function FindAsWritten(s: State, cmp: ListSort.Compare, arg: Addr, ids: seq<NodeId>): (rc: Code)
    requires Valid(s, ids)
    ensures arg == 0 ==> rc == Raise(ERR_INVALID_ARGUMENT)
    ensures arg != 0 ==>
              (rc == SUCCESS <==> exists j | 0 <= j < |ids| :: cmp(s.heap[ids[j]].data, arg) == 0)
    ensures arg != 0 && rc != SUCCESS ==> rc == Raise(ERR_NOT_FOUND)
  {
    if arg == 0 then Raise(ERR_INVALID_ARGUMENT)
    else if Seek(s.heap, s.list.head, Hits(cmp, arg), ids, 0) < |ids| then SUCCESS
    else Raise(ERR_NOT_FOUND)
  }

  /** ina_list_find_data as written: on success it reads the data of the
      uninitialised `node`, whatever node `stale` that happens to be. */
  function FindDataAsWritten(s: State, cmp: ListSort.Compare, arg: Addr, ids: seq<NodeId>, stale: Addr): (r: Result<Addr, Code>)
    requires Valid(s, ids)
    ensures r.Ok? <==> FindAsWritten(s, cmp, arg, ids) == SUCCESS
    ensures r.Err? ==> r.error == FindAsWritten(s, cmp, arg, ids)
  {
    var rc := FindAsWritten(s, cmp, arg, ids);
    if rc == SUCCESS then Ok(stale) else Err(rc)
  }

  /** ina_list_find, storing the first matching node through `node`. */
  function Find(s: State, cmp: ListSort.Compare, arg: Addr, ids: seq<NodeId>): (r: Result<NodeId, Code>)
    requires Valid(s, ids)
    ensures r.Ok? <==> FindAsWritten(s, cmp, arg, ids) == SUCCESS
    ensures r.Err? ==> r.error == FindAsWritten(s, cmp, arg, ids)
    ensures r.Ok? ==> var k := First(Data(s.heap, ids), Hits(cmp, arg));
                      k < |ids| && r.value == ids[k]
  {
    SeekIsFirst(s.heap, Hits(cmp, arg), ids);
    var rc := FindAsWritten(s, cmp, arg, ids);
    if rc != SUCCESS then Err(rc)
    else Ok(ids[Seek(s.heap, s.list.head, Hits(cmp, arg), ids, 0)])
  }

  /** ina_list_find_data over the corrected ina_list_find: the first datum
      that compares equal to `arg`. */
  function FindData(s: State, cmp: ListSort.Compare, arg: Addr, ids: seq<NodeId>): (r: Result<Addr, Code>)
    requires Valid(s, ids)
    ensures r.Ok? <==> FindAsWritten(s, cmp, arg, ids) == SUCCESS
    ensures r.Err? ==> r.error == FindAsWritten(s, cmp, arg, ids)
    ensures r.Ok? ==> cmp(r.value, arg) == 0
    ensures r.Ok? ==> var d := Data(s.heap, ids);
                      var k := First(d, Hits(cmp, arg));
                      k < |d| && r.value == d[k]
  {
    match Find(s, cmp, arg, ids)
    case Ok(n) => Ok(s.heap[n].data)
    case Err(e) => Err(e)
  }

  /** As written, ina_list_find_data reports success with a datum unrelated
      to the list: for a one-node list whose datum matches, the answer is
      whatever `stale` is, while the corrected version gives the datum. */
  lemma FindDataAsWrittenReadsStale(s: State, cmp: ListSort.Compare, arg: Addr, n: NodeId, stale: Addr)
    requires Valid(s, [n]) && arg != 0 && cmp(s.heap[n].data, arg) == 0
    ensures FindDataAsWritten(s, cmp, arg, [n], stale) == Ok(stale)
    ensures FindData(s, cmp, arg, [n]) == Ok(s.heap[n].data)
  {
    assert cmp(s.heap[[n][0]].data, arg) == 0;
  }

  // ---------------------------------------------------------------------
  // Tail and concatenation
  // ---------------------------------------------------------------------

  /** ina_list_tail as written: the head node. */
  function TailAsWritten(l: List): (r: Result<NodeId, Code>)
    ensures l.head == None <==> r == Err(Raise(ERR_EMPTY))
    ensures r.Ok? ==> Some(r.value) == l.head
  {
    match l.head
    case None => Err(Raise(ERR_EMPTY))
    case Some(hd) => Ok(hd)
  }

  /** ina_list_tail reading the last node from the head's `prev`. */
  function Tail(s: State, ids: seq<NodeId>): (r: Result<NodeId, Code>)
    requires Valid(s, ids)
    ensures ids == [] <==> r == Err(Raise(ERR_EMPTY))
    ensures ids != [] ==> r == Ok(ids[|ids| - 1])
  {
    match s.list.head
    case None => Err(Raise(ERR_EMPTY))
    case Some(hd) => Ok(s.heap[hd].prev.value)
  }

  /** On a list of two or more nodes, ina_list_tail as written answers with
      the first node, not the last. */
  lemma TailAsWrittenGivesHead(s: State, ids: seq<NodeId>)
    requires Valid(s, ids) && |ids| >= 2
    ensures TailAsWritten(s.list) == Ok(ids[0])
    ensures Tail(s, ids) == Ok(ids[|ids| - 1]) != TailAsWritten(s.list)
  {
  }

  /** Both list headers after ina_list_concat, over their shared heap. */
  datatype Joined = Joined(heap: Heap, dest: List, src: Option<List>)

  /** ina_list_concat: the nodes of `src` are linked after those of `dest`,
      `src` is left empty and without a pool, and `dest` takes over the pool
      of `src` when it has none of its own. */
  function Concat(h: Heap, dest: List, src: Option<List>, ids1: seq<NodeId>, ids2: seq<NodeId>): (r: Joined)
    requires Valid(State(h, dest), ids1)
    requires src.Some? ==> Valid(State(h, src.value), ids2)
    requires src.None? ==> ids2 == []
    requires forall i, j | 0 <= i < |ids1| && 0 <= j < |ids2| :: ids1[i] != ids2[j]
    ensures ids2 == [] ==> r == Joined(h, dest, src)
    ensures ids2 != [] ==>
              r.src == Some(src.value.(head := None, count := 0, mp := None))
              && r.dest.mp == (if dest.mp.Some? then dest.mp else src.value.mp)
              && Valid(State(r.heap, r.src.value), [])
  {
    if src.None? || src.value.head.None? then Joined(h, dest, src)
    else
      var sl := src.value;
      var sh := sl.head.value;
      var joined := Append(h, dest, sl, ids1, ids2);
      var d2 := joined.list;
      Joined(joined.heap, d2.(mp := if d2.mp.Some? then d2.mp else sl.mp),
             Some(sl.(head := None, count := 0, mp := None)))
  }

  /** The relinking step of ina_list_concat for a non-empty `src`. */
  function Append(h: Heap, dest: List, src: List, ids1: seq<NodeId>, ids2: seq<NodeId>): (r: State)
    requires Valid(State(h, dest), ids1) && Valid(State(h, src), ids2) && ids2 != []
    requires forall i, j | 0 <= i < |ids1| && 0 <= j < |ids2| :: ids1[i] != ids2[j]
    ensures r.list == dest.(head := r.list.head, count := dest.count + src.count)
  {
    var sh := src.head.value;
    match dest.head
    case None => State(h, dest.(head := src.head, count := src.count))
    case Some(dh) =>
      var dt := h[dh].prev.value;
      var h1 := h[dh := h[dh].(prev := h[sh].prev)];
      var h2 := h1[sh := h1[sh].(prev := Some(dt))];
      var h3 := h2[dt := h2[dt].(next := Some(sh))];
      State(h3, dest.(count := dest.count + src.count))
  }

  /** After ina_list_concat, `dest` lists its own nodes followed by those of
      `src`, with their data, and no other node is touched. */
  lemma ConcatJoins(h: Heap, dest: List, src: Option<List>, ids1: seq<NodeId>, ids2: seq<NodeId>)
    requires Valid(State(h, dest), ids1)
    requires src.Some? ==> Valid(State(h, src.value), ids2)
    requires src.None? ==> ids2 == []
    requires forall i, j | 0 <= i < |ids1| && 0 <= j < |ids2| :: ids1[i] != ids2[j]
    ensures var r := Concat(h, dest, src, ids1, ids2);
            Valid(State(r.heap, r.dest), ids1 + ids2)
            && Data(r.heap, ids1 + ids2) == Data(h, ids1) + Data(h, ids2)
            && Untouched(h, r.heap, ids1 + ids2)
  {
    if ids2 != [] {
      var r := Append(h, dest, src.value, ids1, ids2);
      if ids1 == [] {
        assert ids1 + ids2 == ids2;
      } else {
        AppendLinks(h, dest, src.value, ids1, ids2);
      }
    }
  }

  /** The links ina_list_concat rewrites when `dest` is not empty. */
  lemma AppendHeap(h: Heap, dest: List, src: List, ids1: seq<NodeId>, ids2: seq<NodeId>)
    requires Valid(State(h, dest), ids1) && Valid(State(h, src), ids2) && ids1 != [] && ids2 != []
    requires forall i, j | 0 <= i < |ids1| && 0 <= j < |ids2| :: ids1[i] != ids2[j]
    ensures var r := Append(h, dest, src, ids1, ids2).heap;
            var last1, last2 := ids1[|ids1| - 1], ids2[|ids2| - 1];
            r.Keys == h.Keys
            && r[ids1[0]].prev == Some(last2) && r[last1].next == Some(ids2[0])
            && r[ids2[0]].prev == Some(last1)
            && (forall k | k in h && k != ids1[0] && k != last1 :: r[k].next == h[k].next)
            && (forall k | k in h && k != ids1[0] && k != ids2[0] :: r[k].prev == h[k].prev)
            && (forall k | k in h :: r[k].data == h[k].data)
            && (forall k | k in h && k != ids1[0] && k != ids2[0] && k != last1 :: r[k] == h[k])
  {
    assert ids1[0] != ids2[0] && ids1[|ids1| - 1] != ids2[0];
  }

  lemma ConcatDistinct(ids1: seq<NodeId>, ids2: seq<NodeId>)
    requires Distinct(ids1) && Distinct(ids2)
    requires forall i, j | 0 <= i < |ids1| && 0 <= j < |ids2| :: ids1[i] != ids2[j]
    ensures Distinct(ids1 + ids2)
  {
    var c := ids1 + ids2;
    forall i, j | 0 <= i < j < |c|
      ensures c[i] != c[j]
    {
      if j < |ids1| {
      } else if i >= |ids1| {
        assert c[i] == ids2[i - |ids1|] && c[j] == ids2[j - |ids1|];
      } else {
        assert c[j] == ids2[j - |ids1|];
      }
    }
  }

  /** Appending to a non-empty list links its last node to the first node of
      `src` and makes the last node of `src` the new last node. */
  lemma AppendLinks(h: Heap, dest: List, src: List, ids1: seq<NodeId>, ids2: seq<NodeId>)
    requires Valid(State(h, dest), ids1) && Valid(State(h, src), ids2) && ids1 != [] && ids2 != []
    requires forall i, j | 0 <= i < |ids1| && 0 <= j < |ids2| :: ids1[i] != ids2[j]
    ensures var r := Append(h, dest, src, ids1, ids2);
            Valid(r, ids1 + ids2)
            && Data(r.heap, ids1 + ids2) == Data(h, ids1) + Data(h, ids2)
            && Untouched(h, r.heap, ids1 + ids2)
  {
    var r := Append(h, dest, src, ids1, ids2);
    AppendHeap(h, dest, src, ids1, ids2);
    ConcatDistinct(ids1, ids2);
    AppendNext(h, r.heap, ids1, ids2);
    AppendPrev(h, r.heap, ids1, ids2);
    SameDataConcat(h, r.heap, ids1, ids2);
  }

  /** Relinking keeps the data of every listed node. */
  lemma SameDataConcat(h: Heap, r: Heap, ids1: seq<NodeId>, ids2: seq<NodeId>)
    requires SameData(h, r)
    requires (forall i | 0 <= i < |ids1| :: ids1[i] in h) && (forall i | 0 <= i < |ids2| :: ids2[i] in h)
    ensures Data(r, ids1 + ids2) == Data(h, ids1) + Data(h, ids2)
  {
  }

  lemma AppendNext(h: Heap, r: Heap, ids1: seq<NodeId>, ids2: seq<NodeId>)
    requires Chain(h, ids1) && Chain(h, ids2) && ids1 != [] && ids2 != []
    requires Distinct(ids1 + ids2) && r.Keys == h.Keys
    requires r[ids1[|ids1| - 1]].next == Some(ids2[0])
    requires forall k | k in h && k != ids1[0] && k != ids1[|ids1| - 1] :: r[k].next == h[k].next
    requires r[ids1[0]].next == h[ids1[0]].next || ids1[0] == ids1[|ids1| - 1]
    ensures Chain(r, ids1 + ids2)
  {
    var c := ids1 + ids2;
    forall i | 0 <= i < |c| - 1
      ensures r[c[i]].next == Some(c[i + 1])
    {
      if i + 1 < |ids1| {
        assert c[i] == ids1[i] && c[i + 1] == ids1[i + 1];
        assert c[i] != ids1[|ids1| - 1] by {
          assert c[|ids1| - 1] == ids1[|ids1| - 1];
        }
      } else if i >= |ids1| {
        assert c[i] == ids2[i - |ids1|] && c[i + 1] == ids2[i + 1 - |ids1|];
        assert c[i] != ids1[0] && c[i] != ids1[|ids1| - 1] by {
          assert c[0] == ids1[0] && c[|ids1| - 1] == ids1[|ids1| - 1];
        }
      }
    }
    assert c[|c| - 1] == ids2[|ids2| - 1];
    assert c[|c| - 1] != ids1[0] && c[|c| - 1] != ids1[|ids1| - 1] by {
      assert c[0] == ids1[0] && c[|ids1| - 1] == ids1[|ids1| - 1];
    }
  }

  lemma AppendPrev(h: Heap, r: Heap, ids1: seq<NodeId>, ids2: seq<NodeId>)
    requires ids1 != [] && ids2 != [] && Distinct(ids1 + ids2)
    requires (forall i | 0 <= i < |ids1| :: ids1[i] in h) && (forall i | 0 <= i < |ids2| :: ids2[i] in h)
    requires forall i | 0 < i < |ids1| :: h[ids1[i]].prev == Some(ids1[i - 1])
    requires forall i | 0 < i < |ids2| :: h[ids2[i]].prev == Some(ids2[i - 1])
    requires r.Keys == h.Keys && r[ids2[0]].prev == Some(ids1[|ids1| - 1])
    requires forall k | k in h && k != ids1[0] && k != ids2[0] :: r[k].prev == h[k].prev
    ensures forall i | 0 < i < |ids1 + ids2| :: r[(ids1 + ids2)[i]].prev == Some((ids1 + ids2)[i - 1])
  {
    var c := ids1 + ids2;
    forall i | 0 < i < |c|
      ensures r[c[i]].prev == Some(c[i - 1])
    {
      assert c[0] == ids1[0] && c[|ids1|] == ids2[0];
      if i < |ids1| {
        assert c[i] == ids1[i] && c[i - 1] == ids1[i - 1];
      } else if i > |ids1| {
        assert c[i] == ids2[i - |ids1|] && c[i - 1] == ids2[i - 1 - |ids1|];
      }
    }
  }

  // ---------------------------------------------------------------------
  // Sorting
  // ---------------------------------------------------------------------

  /** The nodes `ids` as the merge sort sees them. */
  function Entries(h: Heap, ids: seq<NodeId>): (es: seq<ListSort.Entry>)
    requires forall i | 0 <= i < |ids| :: ids[i] in h
    ensures |es| == |ids|
    ensures forall i | 0 <= i < |ids| :: es[i] == ListSort.Entry(ids[i], h[ids[i]].data)
  {
    seq(|ids|, i requires 0 <= i < |ids| => ListSort.Entry(ids[i], h[ids[i]].data))
  }

  function Nodes(es: seq<ListSort.Entry>): (ns: seq<NodeId>)
    ensures |ns| == |es| && forall i | 0 <= i < |es| :: ns[i] == es[i].node
  {
    seq(|es|, i requires 0 <= i < |es| => es[i].node)
  }

  /** The order __ina_mergesort leaves the nodes in. */
  function SortOrder(s: State, cmp: ListSort.Compare, ids: seq<NodeId>): seq<NodeId>
    requires Valid(s, ids)
  {
    Nodes(ListSort.MergeSort(cmp, Entries(s.heap, ids)))
  }

  /** The position of node `k` in `order`, or the length when it is not
      there. */
  function Pos(order: seq<NodeId>, k: NodeId): (p: nat)
    ensures p <= |order|
    ensures p < |order| ==> order[p] == k
    ensures forall j | 0 <= j < p :: order[j] != k
  {
    if |order| == 0 then 0
    else if order[0] == k then 0
    else 1 + Pos(order[1..], k)
  }

  /** The node after position `j - 1`, NULL past the end. */
  function Link(order: seq<NodeId>, j: nat): Option<NodeId> {
    if j < |order| then Some(order[j]) else None
  }

  /** The node before position `j`, `first` at the start. */
  function Back(order: seq<NodeId>, first: Option<NodeId>, j: nat): Option<NodeId>
    requires j <= |order|
  {
    if j == 0 then first else Some(order[j - 1])
  }

  /** The links __ina_merge leaves on the nodes `order`: each `next` names
      the following node, NULL for the last; each `prev` names the preceding
      node, and `first` for the first node. */
  function Relink(h: Heap, order: seq<NodeId>, first: Option<NodeId>): (r: Heap)
    ensures SameData(h, r)
    ensures forall k | k in h && k !in order :: r[k] == h[k]
  {
    map k | k in h ::
      var p := Pos(order, k);
      if p < |order| then h[k].(next := Link(order, p + 1), prev := Back(order, first, p)) else h[k]
  }

  /** Relink gives each listed node its neighbours. */
  lemma RelinkLinks(h: Heap, order: seq<NodeId>, first: Option<NodeId>, j: nat)
    requires Distinct(order) && j < |order| && order[j] in h
    ensures Relink(h, order, first)[order[j]].next == Link(order, j + 1)
    ensures Relink(h, order, first)[order[j]].prev == Back(order, first, j)
  {
    assert Pos(order, order[j]) == j;
  }

  /** ina_list_sort as written: after two or more nodes pass through
      __ina_merge, the first node's `prev` is NULL. A list of fewer than two
      nodes is left alone. The code returned is always success. */
  function SortAsWritten(s: State, cmp: ListSort.Compare, ids: seq<NodeId>): (r: State)
    requires Valid(s, ids)
    ensures r.list == s.list.(head := r.list.head)
    ensures |ids| <= 1 ==> r == s
  {
    if |ids| <= 1 then s
    else
      var order := SortOrder(s, cmp, ids);
      SortedNodesListed(s, cmp, ids);
      State(Relink(s.heap, order, None), s.list.(head := Some(order[0])))
  }

  /** ina_list_sort with the first node's `prev` naming the last node. */
  function Sort(s: State, cmp: ListSort.Compare, ids: seq<NodeId>): (r: State)
    requires Valid(s, ids)
    ensures r.list == s.list.(head := r.list.head)
    ensures |ids| <= 1 ==> r == s
  {
    if |ids| <= 1 then s
    else
      var order := SortOrder(s, cmp, ids);
      SortedNodesListed(s, cmp, ids);
      State(Relink(s.heap, order, Some(order[|order| - 1])), s.list.(head := Some(order[0])))
  }

  /** Every entry of `es` names a listed node and carries its data. */
  predicate Faithful(h: Heap, ids: seq<NodeId>, es: seq<ListSort.Entry>) {
    forall i | 0 <= i < |es| :: es[i].node in ids && es[i].node in h && es[i].data == h[es[i].node].data
  }

  /** A permutation of faithful entries is faithful. */
  lemma FaithfulPermutation(h: Heap, ids: seq<NodeId>, es: seq<ListSort.Entry>, t: seq<ListSort.Entry>)
    requires Faithful(h, ids, es) && multiset(t) == multiset(es)
    ensures Faithful(h, ids, t)
  {
    forall i | 0 <= i < |t|
      ensures t[i].node in ids && t[i].node in h && t[i].data == h[t[i].node].data
    {
      assert t[i] in multiset(t);
      assert t[i] in es;
    }
  }

  /** Every entry the merge sort hands back is a listed node with its own
      data. */
  lemma SortedEntriesFaithful(s: State, cmp: ListSort.Compare, ids: seq<NodeId>)
    requires Valid(s, ids)
    ensures Faithful(s.heap, ids, ListSort.MergeSort(cmp, Entries(s.heap, ids)))
  {
    var es := Entries(s.heap, ids);
    assert Faithful(s.heap, ids, es);
    FaithfulPermutation(s.heap, ids, es, ListSort.MergeSort(cmp, es));
  }

  /** Faithful entries without repeats name different nodes. */
  lemma FaithfulNodesDistinct(h: Heap, ids: seq<NodeId>, t: seq<ListSort.Entry>)
    requires Faithful(h, ids, t)
    requires forall i, j | 0 <= i < j < |t| :: t[i] != t[j]
    ensures Distinct(Nodes(t))
  {
    var order := Nodes(t);
    forall i, j | 0 <= i < j < |order|
      ensures order[i] != order[j]
    {
      assert t[i] != t[j];
    }
  }

  /** Equal elements at two positions occur twice in the multiset. */
  lemma TwiceInMultiset<T>(t: seq<T>, i: nat, j: nat)
    requires i < j < |t| && t[i] == t[j]
    ensures multiset(t)[t[i]] >= 2
  {
    assert t == t[..j] + [t[j]] + t[j + 1..];
    assert t[i] in t[..j];
  }

  /** A sequence of pairwise different elements holds each at most once. */
  lemma {:induction false} OnceInMultiset<T>(t: seq<T>, x: T)
    requires forall i, j | 0 <= i < j < |t| :: t[i] != t[j]
    ensures multiset(t)[x] <= 1
  {
    if t != [] {
      assert t == [t[0]] + t[1..];
      OnceInMultiset(t[1..], x);
      if x == t[0] {
        assert x !in t[1..];
      }
    }
  }

  /** A permutation of pairwise different elements has no repeats. */
  lemma NoRepeats<T>(es: seq<T>, t: seq<T>)
    requires multiset(t) == multiset(es)
    requires forall i, j | 0 <= i < j < |es| :: es[i] != es[j]
    ensures forall i, j | 0 <= i < j < |t| :: t[i] != t[j]
  {
    forall i, j | 0 <= i < j < |t|
      ensures t[i] != t[j]
    {
      if t[i] == t[j] {
        TwiceInMultiset(t, i, j);
        OnceInMultiset(es, t[i]);
        assert false;
      }
    }
  }

  /** The merge sort lists each node once, each in the heap. */
  lemma SortedNodesListed(s: State, cmp: ListSort.Compare, ids: seq<NodeId>)
    requires Valid(s, ids)
    ensures |SortOrder(s, cmp, ids)| == |ids|
    ensures Distinct(SortOrder(s, cmp, ids))
    ensures forall j | 0 <= j < |ids| :: SortOrder(s, cmp, ids)[j] in s.heap
  {
    var es := Entries(s.heap, ids);
    var t := ListSort.MergeSort(cmp, es);
    SortedEntriesFaithful(s, cmp, ids);
    assert forall i, j | 0 <= i < j < |es| :: es[i] != es[j] by {
      forall i, j | 0 <= i < j < |es|
        ensures es[i] != es[j]
      {
        assert es[i].node == ids[i] && es[j].node == ids[j];
      }
    }
    NoRepeats(es, t);
    FaithfulNodesDistinct(s.heap, ids, t);
  }

  /** The sorted nodes as entries are exactly what the merge sort returned. */
  lemma EntriesOfOrder(s: State, r: Heap, cmp: ListSort.Compare, ids: seq<NodeId>)
    requires Valid(s, ids) && SameData(s.heap, r)
    ensures forall j | 0 <= j < |SortOrder(s, cmp, ids)| :: SortOrder(s, cmp, ids)[j] in r
    ensures Entries(r, SortOrder(s, cmp, ids)) == ListSort.MergeSort(cmp, Entries(s.heap, ids))
  {
    SortedEntriesFaithful(s, cmp, ids);
    SortedNodesListed(s, cmp, ids);
  }

  /** Relinking distinct heap nodes, with the first node's `prev` naming the
      last, makes them a list. */
  lemma RelinkValid(h: Heap, order: seq<NodeId>, l: List)
    requires Distinct(order) && |order| > 0 && l.count == |order|
    requires forall j | 0 <= j < |order| :: order[j] in h
    ensures Valid(State(Relink(h, order, Some(order[|order| - 1])), l.(head := Some(order[0]))), order)
  {
    var first := Some(order[|order| - 1]);
    var r := Relink(h, order, first);
    forall j | 0 <= j < |order|
      ensures order[j] in r
      ensures r[order[j]].next == Link(order, j + 1) && r[order[j]].prev == Back(order, first, j)
    {
      RelinkLinks(h, order, first, j);
    }
    LinkedValid(r, order, l);
  }

  /** Nodes whose links name their neighbours in `order`, the first node's
      `prev` naming the last, form a list. */
  lemma LinkedValid(r: Heap, order: seq<NodeId>, l: List)
    requires Distinct(order) && |order| > 0 && l.count == |order|
    requires forall j | 0 <= j < |order| ::
      order[j] in r && r[order[j]].next == Link(order, j + 1)
      && r[order[j]].prev == Back(order, Some(order[|order| - 1]), j)
    ensures Valid(State(r, l.(head := Some(order[0]))), order)
  {
    assert r[order[|order| - 1]].next == Link(order, |order|);
    assert r[order[0]].prev == Back(order, Some(order[|order| - 1]), 0);
  }

  /** Relinking two or more nodes with a NULL `prev` on the first makes no
      list. */
  lemma RelinkHeadless(h: Heap, order: seq<NodeId>, l: List, other: seq<NodeId>)
    requires Distinct(order) && |order| > 1
    requires forall j | 0 <= j < |order| :: order[j] in h
    ensures Relink(h, order, None)[order[0]].prev == None
    ensures !Valid(State(Relink(h, order, None), l.(head := Some(order[0]))), other)
  {
    RelinkLinks(h, order, None, 0);
  }

  /** The corrected sort links the sorted nodes into a list. */
  lemma SortLinks(s: State, cmp: ListSort.Compare, ids: seq<NodeId>)
    requires Valid(s, ids) && |ids| > 1
    ensures Valid(Sort(s, cmp, ids), SortOrder(s, cmp, ids))
  {
    SortedNodesListed(s, cmp, ids);
    RelinkValid(s.heap, SortOrder(s, cmp, ids), s.list);
  }

  /** ina_list_sort, corrected, relinks the same nodes with the same data
      into a valid list that is sorted whenever the comparator is a strict
      weak order. */
  lemma SortSorts(s: State, cmp: ListSort.Compare, ids: seq<NodeId>)
    requires Valid(s, ids)
    ensures var r := Sort(s, cmp, ids);
            var order := if |ids| <= 1 then ids else SortOrder(s, cmp, ids);
            Valid(r, order)
            && multiset(Entries(r.heap, order)) == multiset(Entries(s.heap, ids))
            && (ListSort.StrictWeak(cmp) ==> ListSort.Sorted(cmp, Entries(r.heap, order)))
            && Untouched(s.heap, r.heap, ids)
  {
    if |ids| > 1 {
      var r := Sort(s, cmp, ids);
      SortLinks(s, cmp, ids);
      EntriesOfOrder(s, r.heap, cmp, ids);
      if ListSort.StrictWeak(cmp) {
        ListSort.MergeSortSorts(cmp, Entries(s.heap, ids));
      }
      SortTouchesListed(s, cmp, ids);
    } else if |ids| == 1 {
      assert Entries(s.heap, ids) == [ListSort.Entry(ids[0], s.heap[ids[0]].data)];
    }
  }

  /** Sorting touches only listed nodes. */
  lemma SortTouchesListed(s: State, cmp: ListSort.Compare, ids: seq<NodeId>)
    requires Valid(s, ids) && |ids| > 1
    ensures Untouched(s.heap, Sort(s, cmp, ids).heap, ids)
  {
    SortedEntriesFaithful(s, cmp, ids);
  }

  /** As written, sorting two or more nodes leaves the first node's `prev`
      NULL where the last node belongs, so the result describes no list;
      ina_list_insert_tail and ina_list_tail then follow that NULL. */
  lemma SortAsWrittenLosesTail(s: State, cmp: ListSort.Compare, ids: seq<NodeId>, other: seq<NodeId>)
    requires Valid(s, ids) && |ids| >= 2
    ensures var r := SortAsWritten(s, cmp, ids);
            r.list.head.Some? && r.list.head.value in r.heap && r.heap[r.list.head.value].prev == None
    ensures !Valid(SortAsWritten(s, cmp, ids), other)
  {
    SortedNodesListed(s, cmp, ids);
    RelinkHeadless(s.heap, SortOrder(s, cmp, ids), s.list, other);
  }
}
