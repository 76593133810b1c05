/** A chained hash table in one block of memory, read remotely by offset.

    Each header node has a fixed number of slots and the number of an overflow node; overflow nodes are
    handed out in order, and nothing is ever removed. A slot keeps 63 bits of its key. */
module ClusterHash {

  const KEY_LIMIT: nat := 0x8000_0000_0000_0000

  /** A 63-bit key field and its valid bit. */
  datatype KeyCell = KeyCell(valid: bool, key: nat)

  /** next is the number of an overflow node, or 0. */
  datatype HeaderNode = HeaderNode(keys: seq<KeyCell>, next: nat)

  /** The i-th slot of the node at a place of the block; a place is never moved. */
  datatype Slot = Slot(node: nat, i: nat)

  datatype Option<T> = None | Some(value: T)

  /** What the key field keeps of a key. */
  function Stored(key: nat): nat {
    key % KEY_LIMIT
  }

  predicate Matches(c: KeyCell, key: nat) {
    c.key == key && c.valid
  }

  /** Overflow node number i is at place logical + i. Chains only lead to overflow nodes that have been
      handed out, with greater and greater numbers. */
  ghost predicate Linked(nodes: seq<HeaderNode>, logical: nat, free: nat) {
    && 0 < free && logical + free <= |nodes|
    && forall a {:trigger LinkOk(nodes, logical, free, a)} | 0 <= a < |nodes| :: LinkOk(nodes, logical, free, a)
  }

  ghost predicate LinkOk(nodes: seq<HeaderNode>, logical: nat, free: nat, a: nat)
    requires a < |nodes|
  {
    nodes[a].next == 0 || (nodes[a].next < free && a < logical + nodes[a].next)
  }

  /** The first matching slot of a node. */
  function FindIn(keys: seq<KeyCell>, key: nat, i: nat): (r: Option<nat>)
    requires i <= |keys|
    ensures r.Some? ==> i <= r.value < |keys| && Matches(keys[r.value], key) && forall j | i <= j < r.value :: !Matches(keys[j], key)
    ensures r.None? ==> forall j | i <= j < |keys| :: !Matches(keys[j], key)
    decreases |keys| - i
  {
    if i == |keys| then None else if Matches(keys[i], key) then Some(i) else FindIn(keys, key, i + 1)
  }

  /** The first matching slot of the chain that starts at place a. */
  ghost function Lookup(nodes: seq<HeaderNode>, logical: nat, free: nat, a: nat, key: nat): Option<Slot>
    requires Linked(nodes, logical, free) && a < |nodes|
    decreases |nodes| - a
  {
    var r := FindIn(nodes[a].keys, key, 0);
    assert LinkOk(nodes, logical, free, a);
    if r.Some? then Some(Slot(a, r.value))
    else if nodes[a].next == 0 then None
    else Lookup(nodes, logical, free, logical + nodes[a].next, key)
  }

  /** The first free slot of a node. */
  function FreeIn(keys: seq<KeyCell>, i: nat): (r: Option<nat>)
    requires i <= |keys|
    ensures r.Some? ==> i <= r.value < |keys| && !keys[r.value].valid && forall j | i <= j < r.value :: keys[j].valid
    ensures r.None? ==> forall j | i <= j < |keys| :: keys[j].valid
    decreases |keys| - i
  {
    if i == |keys| then None else if !keys[i].valid then Some(i) else FreeIn(keys, i + 1)
  }

  /** The first free slot of the chain that starts at place a. */
  ghost function FirstFree(nodes: seq<HeaderNode>, logical: nat, free: nat, a: nat): Option<Slot>
    requires Linked(nodes, logical, free) && a < |nodes|
    decreases |nodes| - a
  {
    var r := FreeIn(nodes[a].keys, 0);
    assert LinkOk(nodes, logical, free, a);
    if r.Some? then Some(Slot(a, r.value))
    else if nodes[a].next == 0 then None
    else FirstFree(nodes, logical, free, logical + nodes[a].next)
  }

  /** Place b is on the chain that starts at place a. */
  ghost predicate OnChain(nodes: seq<HeaderNode>, logical: nat, free: nat, a: nat, b: nat)
    requires Linked(nodes, logical, free) && a < |nodes|
    decreases |nodes| - a
  {
    assert LinkOk(nodes, logical, free, a);
    a == b || (nodes[a].next != 0 && OnChain(nodes, logical, free, logical + nodes[a].next, b))
  }

  /** A free slot is found on the chain exactly if there is one. */
  lemma {:induction false} FreeIsFound(nodes: seq<HeaderNode>, logical: nat, free: nat, a: nat)
    requires Linked(nodes, logical, free) && a < |nodes|
    ensures var r := FirstFree(nodes, logical, free, a);
            if r.Some? then
              r.value.node < |nodes| && OnChain(nodes, logical, free, a, r.value.node)
              && r.value.i < |nodes[r.value.node].keys| && !nodes[r.value.node].keys[r.value.i].valid
            else
              forall b, i | 0 <= b < |nodes| && OnChain(nodes, logical, free, a, b) && 0 <= i < |nodes[b].keys| :: nodes[b].keys[i].valid
    decreases |nodes| - a
  {
    assert LinkOk(nodes, logical, free, a);
    if FreeIn(nodes[a].keys, 0).None? && nodes[a].next != 0 { FreeIsFound(nodes, logical, free, logical + nodes[a].next); }
  }

  /** Slots are used from the first on, and a chain goes on only when a node is full. */
  ghost predicate Packed(nodes: seq<HeaderNode>) {
    forall a | 0 <= a < |nodes| :: PackedNode(nodes[a])
  }

  ghost predicate PackedNode(n: HeaderNode) {
    && (forall i, j | 0 <= i < j < |n.keys| && n.keys[j].valid :: n.keys[i].valid)
    && (n.next != 0 ==> forall i | 0 <= i < |n.keys| :: n.keys[i].valid)
  }

  /** No two nodes lead to the same overflow node. */
  ghost predicate OneWay(nodes: seq<HeaderNode>) {
    forall a, b | 0 <= a < b < |nodes| && nodes[a].next != 0 :: nodes[a].next != nodes[b].next
  }

  /** The place before x on a chain. */
  lemma {:induction false} ChainBefore(nodes: seq<HeaderNode>, logical: nat, free: nat, a: nat, x: nat) returns (p: nat)
    requires Linked(nodes, logical, free) && a < |nodes| && x < |nodes| && OnChain(nodes, logical, free, a, x) && a != x
    ensures a <= p < x && nodes[p].next != 0 && logical + nodes[p].next == x && OnChain(nodes, logical, free, a, p)
    decreases |nodes| - a
  {
    assert LinkOk(nodes, logical, free, a);
    var b := logical + nodes[a].next;
    p := a;
    if b != x {
      p := ChainBefore(nodes, logical, free, b, x);
      assert OnChain(nodes, logical, free, a, p);
    }
  }

  /** Chains that start at different header nodes have no node in common. */
  lemma {:induction false} ChainsApart(nodes: seq<HeaderNode>, logical: nat, free: nat, h: nat, h': nat, x: nat)
    requires Linked(nodes, logical, free) && OneWay(nodes) && h < logical && h' < logical && x < |nodes|
    requires OnChain(nodes, logical, free, h, x) && OnChain(nodes, logical, free, h', x)
    ensures h == h'
    decreases x
  {
    if h != x && h' != x {
      var p := ChainBefore(nodes, logical, free, h, x);
      var p' := ChainBefore(nodes, logical, free, h', x);
      assert p == p';
      ChainsApart(nodes, logical, free, h, h', p);
    } else if h != x {
      var _ := ChainBefore(nodes, logical, free, h, x);
    } else if h' != x {
      var _ := ChainBefore(nodes, logical, free, h', x);
    }
  }

  lemma {:induction false} ChainGoesOn(nodes: seq<HeaderNode>, logical: nat, free: nat, a: nat, b: nat)
    requires Linked(nodes, logical, free) && a < |nodes| && b < |nodes| && OnChain(nodes, logical, free, a, b) && nodes[b].next != 0
    ensures OnChain(nodes, logical, free, a, logical + nodes[b].next)
    decreases |nodes| - a
  {
    assert LinkOk(nodes, logical, free, a) && LinkOk(nodes, logical, free, b);
    if a != b { ChainGoesOn(nodes, logical, free, logical + nodes[a].next, b); }
  }

  /** A slot that is found holds the key. */
  lemma {:induction false} FoundHolds(nodes: seq<HeaderNode>, logical: nat, free: nat, a: nat, key: nat)
    requires Linked(nodes, logical, free) && a < |nodes|
    ensures var r := Lookup(nodes, logical, free, a, key);
            r.Some? ==> a <= r.value.node < |nodes| && r.value.i < |nodes[r.value.node].keys| && Matches(nodes[r.value.node].keys[r.value.i], key)
                        && OnChain(nodes, logical, free, a, r.value.node)
    decreases |nodes| - a
  {
    assert LinkOk(nodes, logical, free, a);
    if FindIn(nodes[a].keys, key, 0).None? && nodes[a].next != 0 { FoundHolds(nodes, logical, free, logical + nodes[a].next, key); }
  }

  /** ... and a key that is not found is nowhere on the chain. */
  lemma {:induction false} NotFound(nodes: seq<HeaderNode>, logical: nat, free: nat, a: nat, key: nat)
    requires Linked(nodes, logical, free) && a < |nodes|
    ensures Lookup(nodes, logical, free, a, key) == None ==>
              forall b, i | 0 <= b < |nodes| && OnChain(nodes, logical, free, a, b) && 0 <= i < |nodes[b].keys| :: !Matches(nodes[b].keys[i], key)
    decreases |nodes| - a
  {
    assert LinkOk(nodes, logical, free, a);
    if FindIn(nodes[a].keys, key, 0).None? && nodes[a].next != 0 { NotFound(nodes, logical, free, logical + nodes[a].next, key); }
  }

  // ---------------------------------------------------------------------------------------------
  // Filling a slot
  // ---------------------------------------------------------------------------------------------

  function FillSlot(nodes: seq<HeaderNode>, b: nat, i: nat, key: nat): seq<HeaderNode>
    requires b < |nodes| && i < |nodes[b].keys|
  {
    nodes[b := nodes[b].(keys := nodes[b].keys[i := KeyCell(true, Stored(key))])]
  }

  lemma FillLinked(nodes: seq<HeaderNode>, logical: nat, free: nat, b: nat, i: nat, key: nat)
    requires Linked(nodes, logical, free) && b < |nodes| && i < |nodes[b].keys|
    ensures Linked(FillSlot(nodes, b, i, key), logical, free)
  {
    var nodes' := FillSlot(nodes, b, i, key);
    forall a | 0 <= a < |nodes'| ensures LinkOk(nodes', logical, free, a) { assert LinkOk(nodes, logical, free, a); }
  }

  lemma {:induction false} FindInFilled(keys: seq<KeyCell>, i: nat, key: nat, k: nat, from: nat)
    requires i < |keys| && !keys[i].valid && k != Stored(key) && from <= |keys|
    ensures FindIn(keys[i := KeyCell(true, Stored(key))], k, from) == FindIn(keys, k, from)
    decreases |keys| - from
  {
    if from < |keys| { FindInFilled(keys, i, key, k, from + 1); }
  }

  /** Filling a free slot does not change what is found for other keys. */
  lemma {:induction false} FillKeepsOthers(nodes: seq<HeaderNode>, logical: nat, free: nat, b: nat, i: nat, key: nat, a: nat, k: nat)
    requires Linked(nodes, logical, free) && b < |nodes| && i < |nodes[b].keys| && !nodes[b].keys[i].valid
    requires a < |nodes| && k != Stored(key) && Linked(FillSlot(nodes, b, i, key), logical, free)
    ensures Lookup(FillSlot(nodes, b, i, key), logical, free, a, k) == Lookup(nodes, logical, free, a, k)
    decreases |nodes| - a
  {
    assert LinkOk(nodes, logical, free, a);
    if a == b { FindInFilled(nodes[b].keys, i, key, k, 0); }
    if FindIn(nodes[a].keys, k, 0).None? && nodes[a].next != 0 {
      FillKeepsOthers(nodes, logical, free, b, i, key, logical + nodes[a].next, k);
    }
  }

  lemma FillPacked(nodes: seq<HeaderNode>, b: nat, i: nat, key: nat)
    requires Packed(nodes) && OneWay(nodes) && b < |nodes| && i < |nodes[b].keys| && !nodes[b].keys[i].valid
    requires forall j | 0 <= j < i :: nodes[b].keys[j].valid
    ensures Packed(FillSlot(nodes, b, i, key)) && OneWay(FillSlot(nodes, b, i, key))
  {
    assert PackedNode(nodes[b]);
  }

  /** Among full slots the key that has just been stored is found last. */
  lemma {:induction false} FindStored(keys: seq<KeyCell>, i: nat, key: nat, from: nat)
    requires from <= i < |keys| && (forall j | i <= j < |keys| :: !keys[j].valid)
    ensures var r := FindIn(keys, Stored(key), from);
            FindIn(keys[i := KeyCell(true, Stored(key))], Stored(key), from) == if r.Some? then r else Some(i)
    decreases i - from
  {
    if from < i { FindStored(keys, i, key, from + 1); }
  }

  /** What the table keeps of the key is found where it was before, or else in the slot that has been
      filled, from everywhere on the slot's chain. */
  lemma {:induction false} FillIsFound(nodes: seq<HeaderNode>, logical: nat, free: nat, b: nat, i: nat, key: nat, a: nat)
    requires Linked(nodes, logical, free) && Packed(nodes) && b < |nodes| && i < |nodes[b].keys| && !nodes[b].keys[i].valid
    requires a < |nodes| && Linked(FillSlot(nodes, b, i, key), logical, free)
    ensures var r := Lookup(nodes, logical, free, a, Stored(key));
            Lookup(FillSlot(nodes, b, i, key), logical, free, a, Stored(key))
            == if r.Some? then r else if OnChain(nodes, logical, free, a, b) then Some(Slot(b, i)) else None
    decreases |nodes| - a
  {
    assert LinkOk(nodes, logical, free, a) && PackedNode(nodes[b]);
    if a == b {
      FindStored(nodes[b].keys, i, key, 0);
    } else if FindIn(nodes[a].keys, Stored(key), 0).None? && nodes[a].next != 0 {
      FillIsFound(nodes, logical, free, b, i, key, logical + nodes[a].next);
    }
  }

  // ---------------------------------------------------------------------------------------------
  // Adding an overflow node
  // ---------------------------------------------------------------------------------------------

  /** A zeroed node with the key in its first slot. */
  function FirstNode(slots: nat, key: nat): HeaderNode {
    HeaderNode(seq(slots, i => if i == 0 then KeyCell(true, Stored(key)) else KeyCell(false, 0)), 0)
  }

  /** The node at place b, the last of its chain, is followed by overflow node number free. */
  function AddNode(nodes: seq<HeaderNode>, logical: nat, free: nat, b: nat, slots: nat, key: nat): seq<HeaderNode>
    requires b < |nodes| && logical + free < |nodes| && 0 < slots
  {
    var added := nodes[logical + free := FirstNode(slots, key)];
    added[b := added[b].(next := free)]
  }

  lemma AddLinked(nodes: seq<HeaderNode>, logical: nat, free: nat, b: nat, slots: nat, key: nat)
    requires Linked(nodes, logical, free) && b < logical + free < |nodes| && nodes[b].next == 0 && 0 < slots
    ensures Linked(AddNode(nodes, logical, free, b, slots, key), logical, free + 1)
  {
    var nodes', free' := AddNode(nodes, logical, free, b, slots, key), free + 1;
    forall a | 0 <= a < |nodes'| ensures LinkOk(nodes', logical, free', a) { assert LinkOk(nodes, logical, free, a); }
  }

  /** Places that chains can reach. */
  predicate InUse(logical: nat, free: nat, a: nat) {
    a < logical + free
  }

  lemma {:induction false} AddKeepsOthers(nodes: seq<HeaderNode>, logical: nat, free: nat, b: nat, slots: nat, key: nat, a: nat, k: nat)
    requires Linked(nodes, logical, free) && b < logical + free < |nodes| && nodes[b].next == 0 && 0 < slots
    requires InUse(logical, free, a) && k != Stored(key)
    requires Linked(AddNode(nodes, logical, free, b, slots, key), logical, free + 1)
    ensures Lookup(AddNode(nodes, logical, free, b, slots, key), logical, free + 1, a, k) == Lookup(nodes, logical, free, a, k)
    decreases |nodes| - a
  {
    var nodes' := AddNode(nodes, logical, free, b, slots, key);
    assert LinkOk(nodes, logical, free, a);
    if FindIn(nodes[a].keys, k, 0).None? {
      if a == b {
        assert nodes'[logical + free].next == 0;
      } else if nodes[a].next != 0 {
        AddKeepsOthers(nodes, logical, free, b, slots, key, logical + nodes[a].next, k);
      }
    }
  }

  lemma AddPacked(nodes: seq<HeaderNode>, logical: nat, free: nat, b: nat, slots: nat, key: nat)
    requires Linked(nodes, logical, free) && Packed(nodes) && OneWay(nodes)
    requires b < logical + free < |nodes| && nodes[b].next == 0 && 0 < slots && forall j | 0 <= j < |nodes[b].keys| :: nodes[b].keys[j].valid
    ensures Packed(AddNode(nodes, logical, free, b, slots, key)) && OneWay(AddNode(nodes, logical, free, b, slots, key))
  {
    var nodes' := AddNode(nodes, logical, free, b, slots, key);
    forall a | 0 <= a < |nodes| ensures nodes[a].next != free && PackedNode(nodes'[a]) {
      assert LinkOk(nodes, logical, free, a) && PackedNode(nodes[a]);
    }
  }

  lemma {:induction false} AddIsFound(nodes: seq<HeaderNode>, logical: nat, free: nat, b: nat, slots: nat, key: nat, a: nat)
    requires Linked(nodes, logical, free) && b < logical + free < |nodes| && nodes[b].next == 0 && 0 < slots
    requires InUse(logical, free, a) && Linked(AddNode(nodes, logical, free, b, slots, key), logical, free + 1)
    ensures var r := Lookup(nodes, logical, free, a, Stored(key));
            Lookup(AddNode(nodes, logical, free, b, slots, key), logical, free + 1, a, Stored(key))
            == if r.Some? then r else if OnChain(nodes, logical, free, a, b) then Some(Slot(logical + free, 0)) else None
    decreases |nodes| - a
  {
    assert LinkOk(nodes, logical, free, a);
    if a != b && FindIn(nodes[a].keys, Stored(key), 0).None? && nodes[a].next != 0 {
      AddIsFound(nodes, logical, free, b, slots, key, logical + nodes[a].next);
    }
  }

  // ---------------------------------------------------------------------------------------------
  // The table
  // ---------------------------------------------------------------------------------------------

  class Table {
    const slots: nat
    const logical: nat
    const indirect: nat
    const hash: nat -> nat
    /** Size of a node in bytes, where the block is, and where a slot's data is within a node. */
    const nodeSize: nat
    const base: nat
    const dataOff: nat -> nat
    var nodes: seq<HeaderNode>
    var free: nat

    ghost predicate Valid()
      reads this
    {
      && 0 < slots && 0 < logical && 0 < indirect && 0 < nodeSize && |nodes| == logical + indirect && free <= indirect
      && Linked(nodes, logical, free) && Packed(nodes) && OneWay(nodes) && forall a | 0 <= a < |nodes| :: |nodes[a].keys| == slots
    }

    function Home(key: nat): nat
      requires 0 < logical
    {
      hash(key) % logical
    }

    /** What the table leads to. */
    ghost function Where(key: nat): Option<Slot>
      requires Valid()
      reads this
    {
      Lookup(nodes, logical, free, Home(key), key)
    }

    /** Every slot of the key's chain is taken. */
    ghost predicate ChainIsFull(key: nat)
      requires Valid()
      reads this
    {
      forall b, i | 0 <= b < |nodes| && OnChain(nodes, logical, free, Home(key), b) && 0 <= i < slots :: nodes[b].keys[i].valid
    }

    /** A slot of the key's chain that is not taken. */
    ghost predicate IsFree(key: nat, s: Slot)
      requires Valid()
      reads this
    {
      s.node < |nodes| && s.i < slots && OnChain(nodes, logical, free, Home(key), s.node) && !nodes[s.node].keys[s.i].valid
    }

    /** Where a new key goes: the first free slot of its chain, or the next overflow node. */
    ghost function Room(key: nat): Option<Slot>
      requires Valid()
      reads this
    {
      var r := FirstFree(nodes, logical, free, Home(key));
      if r.Some? then r else if free < indirect then Some(Slot(logical + free, 0)) else None
    }

    constructor (slots: nat, expected: nat, hash: nat -> nat, nodeSize: nat, base: nat, dataOff: nat -> nat)
      requires 0 < slots && 0 < nodeSize && 0 < expected
      ensures Valid() && logical == expected && forall key :: Where(key) == None
    {
      this.slots, logical, this.hash, this.nodeSize, this.base, this.dataOff := slots, expected, hash, nodeSize, base, dataOff;
      indirect := if expected <= slots then expected else expected / slots;
      nodes := seq(expected + (if expected <= slots then expected else expected / slots), _ => HeaderNode(seq(slots, _ => KeyCell(false, 0)), 0));
      free := 1;
      new;
      forall a | 0 <= a < |nodes| ensures LinkOk(nodes, logical, free, a) { }
    }

    /** The matching slot of a node. */
    method Scan(keys: seq<KeyCell>, key: nat) returns (r: Option<nat>)
      ensures r == FindIn(keys, key, 0)
    {
      for i := 0 to |keys|
        invariant FindIn(keys, key, 0) == FindIn(keys, key, i)
      {
        if Matches(keys[i], key) { return Some(i); }
      }
      return None;
    }

    method Get(key: nat) returns (res: Option<Slot>)
      requires Valid()
      ensures res == Where(key)
      ensures res.Some? ==> res.value.node < |nodes| && res.value.i < slots
                            && nodes[res.value.node].keys[res.value.i].valid && nodes[res.value.node].keys[res.value.i].key == key
                            && OnChain(nodes, logical, free, Home(key), res.value.node)
      ensures res.None? ==> forall b, i | 0 <= b < |nodes| && OnChain(nodes, logical, free, Home(key), b) && 0 <= i < slots ::
                              !(nodes[b].keys[i].valid && nodes[b].keys[i].key == key)
    {
      FoundHolds(nodes, logical, free, Home(key), key);
      NotFound(nodes, logical, free, Home(key), key);
      var a := Home(key);
      while true
        invariant a < |nodes| && Where(key) == Lookup(nodes, logical, free, a, key)
        decreases |nodes| - a
      {
        var r := Scan(nodes[a].keys, key);
        if r.Some? { return Some(Slot(a, r.value)); }
        assert LinkOk(nodes, logical, free, a);
        if nodes[a].next == 0 { return None; }
        a := logical + nodes[a].next;
      }
    }

    /** The slot of the key, which is put into the first free slot of its chain, or a new overflow node,
        if it is not there; nothing if there is no overflow node left. */
    method GetWithInsert(key: nat) returns (res: Option<Slot>)
      requires Valid()
      modifies this
      ensures Valid()
      ensures res == if old(Where(key)).Some? then old(Where(key)) else old(Room(key))
      ensures res.None? <==> old(Where(key)).None? && old(free) == indirect && old(ChainIsFull(key))
      ensures old(Where(key)).Some? || res.None? ==> nodes == old(nodes) && free == old(free)
      ensures old(Where(key)).None? && res.Some? ==>
                if old(ChainIsFull(key)) then res.value == Slot(logical + old(free), 0) && free == old(free) + 1
                else free == old(free) && old(IsFree(key, res.value))
      ensures old(Where(key)).None? && res.Some? ==> Where(key) == (if key < KEY_LIMIT then res else None)
      ensures old(Where(key)).None? && res.Some? ==>
                var k := Stored(key);
                Where(k) == if old(Where(k)).Some? then old(Where(k)) else if Home(k) == Home(key) then res else None
      ensures forall k | Stored(key) != k :: Where(k) == old(Where(k))
    {
      FreeIsFound(nodes, logical, free, Home(key));
      res := Get(key);
      if res.None? {
        res := Insert(key);
      }
    }

    method Insert(key: nat) returns (res: Option<Slot>)
      requires Valid() && Where(key) == None
      modifies this
      ensures Valid() && res == old(Room(key))
      ensures res.Some? ==> Where(key) == (if key < KEY_LIMIT then res else None)
      ensures res.Some? ==>
                var k := Stored(key);
                Where(k) == if old(Where(k)).Some? then old(Where(k)) else if Home(k) == Home(key) then res else None
      ensures res.None? ==> nodes == old(nodes) && free == old(free)
      ensures res.Some? ==> free == old(free) + if FirstFree(old(nodes), logical, old(free), Home(key)).Some? then 0 else 1
      ensures forall k | Stored(key) != k :: Where(k) == old(Where(k))
    {
      var a, i := FindPlace(key);
      if i < slots {
        res := FillIn(a, i, key);
      } else if free == indirect {
        res := None;
      } else {
        res := AddAfter(a, key);
      }
    }

    /** The first free slot on the chain of a key, or the end of a chain that has none. */
    method FindPlace(key: nat) returns (a: nat, i: nat)
      requires Valid()
      ensures a < logical + free && OnChain(nodes, logical, free, Home(key), a)
      ensures if i < slots then !nodes[a].keys[i].valid else nodes[a].next == 0
      ensures forall j | 0 <= j < i && j < slots :: nodes[a].keys[j].valid
      ensures FirstFree(nodes, logical, free, Home(key)) == if i < slots then Some(Slot(a, i)) else None
    {
      a := Home(key);
      while true
        invariant a < logical + free && OnChain(nodes, logical, free, Home(key), a)
        invariant FirstFree(nodes, logical, free, Home(key)) == FirstFree(nodes, logical, free, a)
        decreases |nodes| - a
      {
        i := FreeSlot(nodes[a].keys);
        assert LinkOk(nodes, logical, free, a);
        if i < slots || nodes[a].next == 0 { return; }
        ChainGoesOn(nodes, logical, free, Home(key), a);
        a := logical + nodes[a].next;
      }
    }

    method FreeSlot(keys: seq<KeyCell>) returns (i: nat)
      ensures i <= |keys| && (i < |keys| ==> !keys[i].valid) && forall j | 0 <= j < i :: keys[j].valid
    {
      i := 0;
      while i < |keys| && keys[i].valid
        invariant i <= |keys| && forall j | 0 <= j < i :: keys[j].valid
      {
        i := i + 1;
      }
    }

    /** A place on the chain of header node h is on that of h' exactly if they are the same. */
    lemma SameChain(h: nat, h': nat, a: nat)
      requires Valid() && h < logical && h' < logical && a < |nodes| && OnChain(nodes, logical, free, h, a)
      ensures OnChain(nodes, logical, free, h', a) <==> h == h'
    {
      if OnChain(nodes, logical, free, h', a) { ChainsApart(nodes, logical, free, h, h', a); }
    }

    method FillIn(a: nat, i: nat, key: nat) returns (res: Option<Slot>)
      requires Valid() && Where(key) == None && a < |nodes| && OnChain(nodes, logical, free, Home(key), a)
      requires i < slots && !nodes[a].keys[i].valid && forall j | 0 <= j < i :: nodes[a].keys[j].valid
      modifies this
      ensures Valid() && res == Some(Slot(a, i)) && free == old(free)
      ensures var k := Stored(key);
              Where(k) == if old(Where(k)).Some? then old(Where(k)) else if Home(k) == Home(key) then res else None
      ensures forall k | Stored(key) != k :: Where(k) == old(Where(k))
    {
      FillLinked(nodes, logical, free, a, i, key);
      FillPacked(nodes, a, i, key);
      FillIsFound(nodes, logical, free, a, i, key, Home(Stored(key)));
      SameChain(Home(key), Home(Stored(key)), a);
      forall k | Stored(key) != k
        ensures Lookup(FillSlot(nodes, a, i, key), logical, free, Home(k), k) == Lookup(nodes, logical, free, Home(k), k)
      {
        FillKeepsOthers(nodes, logical, free, a, i, key, Home(k), k);
      }
      var c := nodes[a].keys[i].(valid := true);
      c := c.(key := Stored(key));
      nodes := nodes[a := nodes[a].(keys := nodes[a].keys[i := c])];
      return Some(Slot(a, i));
    }

    method AddAfter(a: nat, key: nat) returns (res: Option<Slot>)
      requires Valid() && Where(key) == None && a < logical + free && OnChain(nodes, logical, free, Home(key), a)
      requires free < indirect && nodes[a].next == 0 && forall j | 0 <= j < slots :: nodes[a].keys[j].valid
      modifies this
      ensures Valid() && res == Some(Slot(logical + old(free), 0)) && free == old(free) + 1
      ensures var k := Stored(key);
              Where(k) == if old(Where(k)).Some? then old(Where(k)) else if Home(k) == Home(key) then res else None
      ensures forall k | Stored(key) != k :: Where(k) == old(Where(k))
    {
      AddLinked(nodes, logical, free, a, slots, key);
      AddPacked(nodes, logical, free, a, slots, key);
      AddIsFound(nodes, logical, free, a, slots, key, Home(Stored(key)));
      SameChain(Home(key), Home(Stored(key)), a);
      forall k | Stored(key) != k
        ensures Lookup(AddNode(nodes, logical, free, a, slots, key), logical, free + 1, Home(k), k) == Lookup(nodes, logical, free, Home(k), k)
      {
        AddKeepsOthers(nodes, logical, free, a, slots, key, Home(k), k);
      }
      AppendNode(a, key);
      return Some(Slot(logical + free - 1, 0));
    }

    /** Zero the next overflow node, put the key into its first slot, and chain it. */
    method AppendNode(a: nat, key: nat)
      requires 0 < slots && a < |nodes| && logical + free < |nodes|
      modifies this
      ensures nodes == AddNode(old(nodes), logical, old(free), a, slots, key) && free == old(free) + 1
    {
      nodes := nodes[logical + free := FirstNode(slots, key)];
      nodes := nodes[a := nodes[a].(next := free)];
      free := free + 1;
    }

    /** Where a slot's data is in the block of memory. */
    function Offset(s: Slot): nat {
      base + s.node * nodeSize + dataOff(s.i)
    }

    function IndirectLoc(i: nat): nat {
      (i + logical) * nodeSize
    }

    /** One remote read: the node that starts at an offset. */
    method FetchNode(off: nat, ghost a: nat) returns (node: HeaderNode)
      requires Valid() && a < |nodes| && off == base + a * nodeSize
      ensures node == nodes[a]
    {
      MulDiv(a, nodeSize);
      node := nodes[(off - base) / nodeSize];
    }

    /** A remote lookup, which goes by offsets, arrives at the slot that a local one finds. */
    method RemoteGet(key: nat) returns (off: nat)
      requires Valid() && Where(key).Some?
      ensures off == Offset(Where(key).value)
      ensures exists a, i :: 0 <= a < |nodes| && 0 <= i < slots && nodes[a].keys[i].valid && nodes[a].keys[i].key == key
                             && off == base + a * nodeSize + dataOff(i)
    {
      FoundHolds(nodes, logical, free, Home(key), key);
      var nodeOff := Home(key) * nodeSize + base;
      ghost var a := Home(key);
      var node := FetchNode(nodeOff, a);
      while true
        invariant a < |nodes| && Where(key) == Lookup(nodes, logical, free, a, key)
        invariant nodeOff == base + a * nodeSize && node == nodes[a]
        decreases |nodes| - a
      {
        var r := Scan(node.keys, key);
        if r.Some? { return dataOff(r.value) + nodeOff; }
        assert LinkOk(nodes, logical, free, a);
        nodeOff := IndirectLoc(node.next) + base;
        a := logical + node.next;
        node := FetchNode(nodeOff, a);
      }
    }

    /** A key that has a slot keeps it, and no two keys share one. */
    lemma SlotsDistinct(k: nat, l: nat)
      requires Valid() && Where(k).Some? && Where(l).Some? && k != l
      ensures Where(k).value != Where(l).value
    {
      FoundHolds(nodes, logical, free, Home(k), k);
      FoundHolds(nodes, logical, free, Home(l), l);
    }
  }

  /** If the slots of a node lie apart and within it, different slots have different offsets. */
  lemma OffsetsDiffer(t: Table, a: Slot, b: Slot)
    requires a.i < t.slots && b.i < t.slots && forall i | 0 <= i < t.slots :: t.dataOff(i) < t.nodeSize
    requires forall i, j | 0 <= i < j < t.slots :: t.dataOff(i) != t.dataOff(j)
    ensures t.Offset(a) == t.Offset(b) <==> a == b
  {
    var n, x, y := t.nodeSize, t.dataOff(a.i), t.dataOff(b.i);
    if t.Offset(a) == t.Offset(b) {
      assert a.node * n + x == b.node * n + y;
      PlaceAndRest(a.node, x, n);
      PlaceAndRest(b.node, y, n);
    }
  }

  lemma PlaceAndRest(a: nat, x: nat, n: nat)
    requires x < n
    ensures (a * n + x) / n == a && a * n + x - a * n == x
  {
    var q := (a * n + x) / n;
    assert q * n <= a * n + x < (q + 1) * n;
    assert a * n + x < (a + 1) * n;
    Cancel(q, a, n);
    Cancel(a, q, n);
  }

  lemma MulDiv(a: nat, n: nat)
    requires 0 < n
    ensures (a * n) / n == a
  {
    var q := (a * n) / n;
    assert q * n <= a * n < (q + 1) * n;
    Cancel(q, a, n);
    Cancel(a, q, n);
  }

  lemma Cancel(x: nat, y: nat, n: nat)
    requires 0 < n && x * n < (y + 1) * n
    ensures x <= y
  {
  }
}
