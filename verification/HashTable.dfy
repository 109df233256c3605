/** The linear-probing hash table that hands out indices: a key keeps the slot it
    was first given, and every slot holds the registers of one key. */
module HashTables {

  type Labels = map<string, string>

  type Register = map<string, Labels>

  /** A slot is free when its key is empty. */
  datatype Node = Node(key: string, register: Register)

  const FREE := Node("", map[])

  // ---------------------------------------------------------------------
  // Hashing and probing
  // ---------------------------------------------------------------------

  function CharSum(key: string): nat {
    if key == "" then 0 else CharSum(key[..|key| - 1]) + key[|key| - 1] as int
  }

  /** The sum of the characters, as an unsigned 32-bit number, modulo the size. */
  function Hash(key: string, size: nat): (h: nat)
    requires size > 0
    ensures h < size
  {
    (CharSum(key) % 0x1_0000_0000) % size
  }

  /** The slot `r` steps after `h`, going around. */
  function At(size: nat, h: nat, r: nat): (i: nat)
    requires h < size && r < size
    ensures i < size
  {
    if h + r < size then h + r else h + r - size
  }

  /** How many steps lead from `h` to `j`, going around. */
  function Distance(size: nat, h: nat, j: nat): (r: nat)
    requires h < size && j < size
    ensures r < size && At(size, h, r) == j
  {
    if h <= j then j - h else j + size - h
  }

  /** Where a probe for `k` stops when inserting. */
  predicate Suitable(node: Node, k: string) {
    node.key == "" || node.key == k
  }

  /** The probe for `k` that starts at `h` stops after `r` steps. */
  ghost predicate StopsAt(ns: seq<Node>, h: nat, k: string, r: nat)
    requires h < |ns|
  {
    && r < |ns| && Suitable(ns[At(|ns|, h, r)], k)
    && forall t | 0 <= t < r :: !Suitable(ns[At(|ns|, h, t)], k)
  }

  ghost predicate HasRoom(ns: seq<Node>, k: string) {
    exists j | 0 <= j < |ns| :: Suitable(ns[j], k)
  }

  function Claimed(ns: seq<Node>, i: nat, k: string, n: string, l: Labels): seq<Node>
    requires i < |ns|
  {
    ns[i := Node(k, (if ns[i].key == "" then map[] else ns[i].register)[n := l])]
  }

  // ---------------------------------------------------------------------
  // The invariant
  // ---------------------------------------------------------------------

  ghost predicate KeysDiffer(ns: seq<Node>) {
    forall i, j | 0 <= i < j < |ns| && ns[i].key != "" :: ns[i].key != ns[j].key
  }

  /** Every slot between the hash of a key and the slot of the key is taken. */
  ghost predicate ChainTo(ns: seq<Node>, j: nat)
    requires j < |ns|
  {
    var h := Hash(ns[j].key, |ns|);
    forall t | 0 <= t < Distance(|ns|, h, j) :: ns[At(|ns|, h, t)].key != ""
  }

  ghost predicate Chained(ns: seq<Node>) {
    forall j | 0 <= j < |ns| && ns[j].key != "" :: ChainTo(ns, j)
  }

  ghost predicate Valid(ns: seq<Node>) {
    KeysDiffer(ns) && Chained(ns)
  }

  ghost function Keys(ns: seq<Node>): set<string> {
    set j | 0 <= j < |ns| && ns[j].key != "" :: ns[j].key
  }

  ghost function SlotOf(ns: seq<Node>, k: string): (j: nat)
    requires k in Keys(ns)
    ensures j < |ns| && ns[j].key == k && k != ""
  {
    var j :| 0 <= j < |ns| && ns[j].key != "" && ns[j].key == k;
    j
  }

  /** The map from keys to registers that the table stands for. */
  ghost function Contents(ns: seq<Node>): map<string, Register> {
    map k | k in Keys(ns) :: ns[SlotOf(ns, k)].register
  }

  lemma SlotUnique(ns: seq<Node>, j: nat)
    requires KeysDiffer(ns) && j < |ns| && ns[j].key != ""
    ensures ns[j].key in Keys(ns) && SlotOf(ns, ns[j].key) == j
    ensures ns[j].key in Contents(ns) && Contents(ns)[ns[j].key] == ns[j].register
  {
    assert ns[j].key in Keys(ns);
    var i := SlotOf(ns, ns[j].key);
  }

  // ---------------------------------------------------------------------
  // Insertion
  // ---------------------------------------------------------------------

  /** The probe for a key that is in the table stops at its slot: the way there is
      taken by other keys. */
  lemma ProbeFindsKey(ns: seq<Node>, k: string, r: nat)
    requires Valid(ns) && |ns| > 0 && k in Keys(ns)
    requires StopsAt(ns, Hash(k, |ns|), k, r)
    ensures At(|ns|, Hash(k, |ns|), r) == SlotOf(ns, k)
  {
    var h, j := Hash(k, |ns|), SlotOf(ns, k);
    var d := Distance(|ns|, h, j);
    assert ChainTo(ns, j);
    assert r == d;
  }

  /** No slot but the one where the probe stops holds the key. */
  lemma OnlyWhereItStops(ns: seq<Node>, k: string, r: nat, o: nat)
    requires Valid(ns) && |ns| > 0 && k != "" && StopsAt(ns, Hash(k, |ns|), k, r)
    requires o < |ns| && o != At(|ns|, Hash(k, |ns|), r)
    ensures ns[o].key != k
  {
    if ns[o].key == k {
      SlotUnique(ns, o);
      ProbeFindsKey(ns, k, r);
    }
  }

  lemma ClaimKeepsKeys(ns: seq<Node>, k: string, n: string, l: Labels, r: nat)
    requires Valid(ns) && |ns| > 0 && k != "" && StopsAt(ns, Hash(k, |ns|), k, r)
    ensures KeysDiffer(Claimed(ns, At(|ns|, Hash(k, |ns|), r), k, n, l))
  {
    var i := At(|ns|, Hash(k, |ns|), r);
    forall o: nat | o < |ns| && o != i ensures ns[o].key != k {
      OnlyWhereItStops(ns, k, r, o);
    }
  }

  lemma ClaimKeepsChains(ns: seq<Node>, k: string, n: string, l: Labels, r: nat)
    requires Valid(ns) && |ns| > 0 && k != "" && StopsAt(ns, Hash(k, |ns|), k, r)
    ensures Chained(Claimed(ns, At(|ns|, Hash(k, |ns|), r), k, n, l))
  {
    var h := Hash(k, |ns|);
    var i := At(|ns|, h, r);
    var ns' := Claimed(ns, i, k, n, l);
    forall j | 0 <= j < |ns'| && ns'[j].key != "" ensures ChainTo(ns', j) {
      if j != i {
        assert ChainTo(ns, j);
      }
    }
  }

  lemma ClaimKeys(ns: seq<Node>, i: nat, k: string, n: string, l: Labels)
    requires i < |ns| && k != "" && Suitable(ns[i], k)
    ensures Keys(Claimed(ns, i, k, n, l)) == Keys(ns) + {k}
  {
    var ns' := Claimed(ns, i, k, n, l);
    assert ns'[i].key == k;
    forall q | q in Keys(ns') ensures q in Keys(ns) + {k} {
      var j := SlotOf(ns', q);
      assert j != i ==> ns[j].key == q;
    }
    forall q | q in Keys(ns) ensures q in Keys(ns') {
      var j := SlotOf(ns, q);
      assert ns'[j].key == q;
    }
  }

  /** Inserting keeps the invariant and every key in its slot. */
  lemma ClaimKeepsSlots(ns: seq<Node>, k: string, n: string, l: Labels, r: nat)
    requires Valid(ns) && |ns| > 0 && k != "" && StopsAt(ns, Hash(k, |ns|), k, r)
    ensures var i := At(|ns|, Hash(k, |ns|), r);
            var ns' := Claimed(ns, i, k, n, l);
            && Valid(ns')
            && Keys(ns') == Keys(ns) + {k} && SlotOf(ns', k) == i
            && forall q | q in Keys(ns) :: SlotOf(ns', q) == SlotOf(ns, q)
  {
    var i := At(|ns|, Hash(k, |ns|), r);
    var ns' := Claimed(ns, i, k, n, l);
    ClaimKeepsKeys(ns, k, n, l, r);
    ClaimKeepsChains(ns, k, n, l, r);
    ClaimKeys(ns, i, k, n, l);
    SlotUnique(ns', i);
    forall q | q in Keys(ns) ensures SlotOf(ns', q) == SlotOf(ns, q) {
      SlotUnique(ns', SlotOf(ns, q));
    }
  }

  lemma FreeOrKnown(ns: seq<Node>, i: nat)
    requires i < |ns|
    ensures ns[i].key == "" || ns[i].key in Keys(ns)
  {
  }

  /** Inserting refines the map: the register is set under its key, and every
      other key and register stays. */
  lemma ClaimRefines(ns: seq<Node>, k: string, n: string, l: Labels, r: nat)
    requires Valid(ns) && |ns| > 0 && k != "" && StopsAt(ns, Hash(k, |ns|), k, r)
    ensures var i := At(|ns|, Hash(k, |ns|), r);
            var c := Contents(ns);
            Contents(Claimed(ns, i, k, n, l)) == c[k := (if k in c then c[k] else map[])[n := l]]
  {
    hide Hash, Valid, Keys;
    var i := At(|ns|, Hash(k, |ns|), r);
    var ns' := Claimed(ns, i, k, n, l);
    ClaimKeepsSlots(ns, k, n, l, r);
    if k in Keys(ns) {
      ProbeFindsKey(ns, k, r);
    } else {
      FreeOrKnown(ns, i);
    }
    forall q | q in Keys(ns) && q != k ensures Contents(ns')[q] == Contents(ns)[q] {
      assert SlotOf(ns', q) != i;
    }
  }

  // ---------------------------------------------------------------------
  // Room
  // ---------------------------------------------------------------------

  /** The number of taken slots. */
  function Taken(ns: seq<Node>): nat {
    if ns == [] then 0
    else Taken(ns[..|ns| - 1]) + if ns[|ns| - 1].key != "" then 1 else 0
  }

  lemma KeysOfPrefix(ns: seq<Node>)
    requires ns != []
    ensures var init, last := ns[..|ns| - 1], ns[|ns| - 1];
            Keys(ns) == Keys(init) + if last.key != "" then {last.key} else {}
  {
    var init, last := ns[..|ns| - 1], ns[|ns| - 1];
    forall q | q in Keys(init) ensures q in Keys(ns) {
      assert ns[SlotOf(init, q)].key == q;
    }
    forall q | q in Keys(ns) && q != last.key ensures q in Keys(init) {
      assert init[SlotOf(ns, q)].key == q;
    }
    if last.key != "" {
      assert ns[|ns| - 1].key in Keys(ns);
    } else {
      assert last.key !in Keys(ns);
    }
  }

  lemma {:induction false} TakenCountsKeys(ns: seq<Node>)
    requires KeysDiffer(ns)
    ensures Taken(ns) == |Keys(ns)| <= |ns|
  {
    if ns == [] {
      assert Keys(ns) == {};
    } else {
      var init, last := ns[..|ns| - 1], ns[|ns| - 1];
      TakenCountsKeys(init);
      KeysOfPrefix(ns);
      assert last.key !in Keys(init);
    }
  }

  lemma {:induction false} FullWhenAllTaken(ns: seq<Node>)
    ensures Taken(ns) == |ns| <==> forall j | 0 <= j < |ns| :: ns[j].key != ""
    ensures Taken(ns) <= |ns|
  {
    if ns != [] {
      var init := ns[..|ns| - 1];
      assert forall i | 0 <= i < |init| :: init[i] == ns[i];
      FullWhenAllTaken(init);
    }
  }

  /** A probe can stop exactly when the key is known or the table is not full. */
  lemma RoomUnlessFull(ns: seq<Node>, k: string)
    requires Valid(ns) && k != ""
    ensures HasRoom(ns, k) <==> k in Keys(ns) || |Keys(ns)| < |ns|
  {
    TakenCountsKeys(ns);
    FullWhenAllTaken(ns);
    if HasRoom(ns, k) {
      var j :| 0 <= j < |ns| && Suitable(ns[j], k);
      if ns[j].key == k {
        assert k in Keys(ns);
      }
    }
    if k in Keys(ns) {
      assert Suitable(ns[SlotOf(ns, k)], k);
    } else if |Keys(ns)| < |ns| {
      var j :| 0 <= j < |ns| && ns[j].key == "";
      assert Suitable(ns[j], k);
    }
  }

  // ---------------------------------------------------------------------
  // Deletion
  // ---------------------------------------------------------------------

  /** The slot of `k` with one register gone; without registers it is free. */
  function Released(node: Node, n: string): Node {
    var register := node.register - {n};
    if register == map[] then FREE else node.(register := register)
  }

  /** The probe for `k` that starts at `h` finds it after `r` steps. */
  ghost predicate FindsAt(ns: seq<Node>, h: nat, k: string, r: nat)
    requires h < |ns|
  {
    && r < |ns| && ns[At(|ns|, h, r)].key == k
    && forall t | 0 <= t < r :: ns[At(|ns|, h, t)].key != k
  }

  /** No key other than the one in slot `i` is reached through slot `i`. */
  ghost predicate PassedBy(ns: seq<Node>, i: nat)
    requires i < |ns|
  {
    forall j | 0 <= j < |ns| && j != i && ns[j].key != "" ::
      var h := Hash(ns[j].key, |ns|);
      Distance(|ns|, h, j) <= Distance(|ns|, h, i)
  }

  /** Giving up a slot leaves no tombstone: the table stays valid if and only if
      no other key is reached through that slot. */
  lemma FreeingKeepsValid(ns: seq<Node>, i: nat)
    requires Valid(ns) && i < |ns| && ns[i].key != ""
    ensures Valid(ns[i := FREE]) <==> PassedBy(ns, i)
  {
    var ns' := ns[i := FREE];
    assert KeysDiffer(ns');
    if Valid(ns') {
      forall j | 0 <= j < |ns| && j != i && ns[j].key != ""
        ensures var h := Hash(ns[j].key, |ns|); Distance(|ns|, h, j) <= Distance(|ns|, h, i)
      {
        var h := Hash(ns[j].key, |ns|);
        assert ChainTo(ns', j);
        assert At(|ns|, h, Distance(|ns|, h, i)) == i;
      }
    }
    if PassedBy(ns, i) {
      forall j | 0 <= j < |ns'| && ns'[j].key != "" ensures ChainTo(ns', j) {
        var h := Hash(ns[j].key, |ns|);
        assert ChainTo(ns, j);
        forall t | 0 <= t < Distance(|ns|, h, j) ensures ns'[At(|ns|, h, t)].key != "" {
          assert At(|ns|, h, t) != i;
        }
      }
    }
  }

  /** Freeing the slot of one of two keys with the same hash hides the other: the
      next insertion of it takes a second slot. */
  lemma DeleteCanDuplicate()
    ensures var ns := [FREE, Node("a", map["x" := map[]]), Node("d", map["x" := map[]])];
            var ns' := ns[1 := Released(ns[1], "x")];
            && Valid(ns) && FindsAt(ns, Hash("a", 3), "a", 0)
            && StopsAt(ns', Hash("d", 3), "d", 0)
            && !KeysDiffer(Claimed(ns', At(3, Hash("d", 3), 0), "d", "x", map[]))
  {
    var ns := [FREE, Node("a", map["x" := map[]]), Node("d", map["x" := map[]])];
    assert CharSum("a") == 97 by { assert "a"[..0] == ""; }
    assert CharSum("d") == 100 by { assert "d"[..0] == ""; }
    assert Hash("a", 3) == 1 && Hash("d", 3) == 1;
    assert ns[1].register - {"x"} == map[];
    var ns' := ns[1 := Released(ns[1], "x")];
    assert ns'[1] == FREE;
    var ns2 := Claimed(ns', 1, "d", "x", map[]);
    assert ns2[1].key == ns2[2].key;
  }

  // ---------------------------------------------------------------------
  // Runs of insertions
  // ---------------------------------------------------------------------

  datatype Insertion = Insertion(key: string, name: string, labels: Labels)

  ghost predicate Inserts(ns: seq<Node>, op: Insertion, ns': seq<Node>)
    requires |ns| > 0
  {
    exists r | 0 <= r < |ns| ::
      && StopsAt(ns, Hash(op.key, |ns|), op.key, r)
      && ns' == Claimed(ns, At(|ns|, Hash(op.key, |ns|), r), op.key, op.name, op.labels)
  }

  /** What the insertions do to a map. */
  function MapAfter(ops: seq<Insertion>): map<string, Register> {
    if ops == [] then map[]
    else
      var c, op := MapAfter(ops[..|ops| - 1]), ops[|ops| - 1];
      c[op.key := (if op.key in c then c[op.key] else map[])[op.name := op.labels]]
  }

  /** A run from the empty table with non-empty keys. */
  ghost predicate InsertRun(nss: seq<seq<Node>>, ops: seq<Insertion>, size: nat) {
    && size > 0 && |nss| == |ops| + 1
    && (forall i | 0 <= i < |nss| :: |nss[i]| == size)
    && (forall j | 0 <= j < size :: nss[0][j] == FREE)
    && (forall i | 0 <= i < |ops| :: ops[i].key != "" && Inserts(nss[i], ops[i], nss[i + 1]))
  }

  lemma EmptyTable(ns: seq<Node>)
    requires forall j | 0 <= j < |ns| :: ns[j] == FREE
    ensures Valid(ns) && Keys(ns) == {} && Contents(ns) == map[]
  {
  }

  /** Over every run of insertions the table is valid and stands for the map. */
  lemma {:induction false} RunRefines(nss: seq<seq<Node>>, ops: seq<Insertion>, size: nat, n: nat)
    requires InsertRun(nss, ops, size) && n <= |ops|
    ensures Valid(nss[n]) && Contents(nss[n]) == MapAfter(ops[..n])
    ensures Taken(nss[n]) == |MapAfter(ops[..n])|
    decreases n
  {
    hide Valid, Contents, StopsAt, Claimed, Hash;
    if n == 0 {
      EmptyTable(nss[0]);
      assert ops[..0] == [];
    } else {
      RunRefines(nss, ops, size, n - 1);
      var ns, op := nss[n - 1], ops[n - 1];
      assert Inserts(ns, op, nss[n]);
      var r :| 0 <= r < |ns| && StopsAt(ns, Hash(op.key, |ns|), op.key, r)
               && nss[n] == Claimed(ns, At(|ns|, Hash(op.key, |ns|), r), op.key, op.name, op.labels);
      ClaimKeepsSlots(ns, op.key, op.name, op.labels, r);
      ClaimRefines(ns, op.key, op.name, op.labels, r);
      assert ops[..n][..n - 1] == ops[..n - 1];
    }
    CountOfContents(nss[n]);
  }

  lemma CountOfContents(ns: seq<Node>)
    requires Valid(ns)
    ensures Taken(ns) == |Contents(ns)|
  {
    TakenCountsKeys(ns);
    assert Contents(ns).Keys == Keys(ns);
  }

  /** The index of a key never changes. */
  lemma {:induction false} RunKeepsIndices(nss: seq<seq<Node>>, ops: seq<Insertion>, size: nat,
                                              m: nat, n: nat, q: string)
    requires InsertRun(nss, ops, size) && m <= n <= |ops| && q in Keys(nss[m])
    ensures q in Keys(nss[n]) && SlotOf(nss[n], q) == SlotOf(nss[m], q)
    decreases n
  {
    hide Valid, Contents, StopsAt, Claimed, Hash, Keys;
    if m < n {
      RunKeepsIndices(nss, ops, size, m, n - 1, q);
      RunRefines(nss, ops, size, n - 1);
      var ns, op := nss[n - 1], ops[n - 1];
      assert Inserts(ns, op, nss[n]);
      var r :| 0 <= r < |ns| && StopsAt(ns, Hash(op.key, |ns|), op.key, r)
               && nss[n] == Claimed(ns, At(|ns|, Hash(op.key, |ns|), r), op.key, op.name, op.labels);
      ClaimKeepsSlots(ns, op.key, op.name, op.labels, r);
    }
  }

  // ---------------------------------------------------------------------
  // The table as a mutable object
  // ---------------------------------------------------------------------

  lemma AtNext(size: nat, h: nat, r: nat)
    requires h < size && r + 1 < size
    ensures var i := At(size, h, r); At(size, h, r + 1) == if i + 1 >= size then 0 else i + 1
  {
  }

  class HashTable {
    const size: nat
    const nodes: array<Node>

    constructor (size: nat)
      ensures this.size == size == nodes.Length && fresh(nodes)
      ensures forall j | 0 <= j < size :: nodes[j] == FREE
    {
      this.size := size;
      nodes := new Node[size](_ => FREE);
    }

    /** Takes the first suitable slot from the hash of the key on.  Where no slot
        is suitable the source never returns. */
    method Insert(k: string, n: string, l: Labels) returns (index: nat)
      requires 0 < size == nodes.Length && HasRoom(nodes[..], k)
      modifies nodes
      ensures index < size && nodes[..] == Claimed(old(nodes[..]), index, k, n, l)
      ensures Inserts(old(nodes[..]), Insertion(k, n, l), nodes[..])
      ensures exists r :: StopsAt(old(nodes[..]), Hash(k, size), k, r) && index == At(size, Hash(k, size), r)
    {
      var h := Hash(k, size);
      ghost var j :| 0 <= j < size && Suitable(nodes[..][j], k);
      index := InsertFrom(h, k, n, l, h, 0, Distance(size, h, j));
    }

    method InsertFrom(hidx: nat, k: string, n: string, l: Labels, ghost h: nat, ghost r: nat, ghost left: nat)
        returns (index: nat)
      requires 0 < size == nodes.Length && h < size && r + left < size
      requires hidx == At(size, h, r) && Suitable(nodes[At(size, h, r + left)], k)
      requires forall t | 0 <= t < r :: !Suitable(nodes[At(size, h, t)], k)
      modifies nodes
      ensures index < size && nodes[..] == Claimed(old(nodes[..]), index, k, n, l)
      ensures exists r :: StopsAt(old(nodes[..]), h, k, r) && index == At(size, h, r)
      decreases left
    {
      if nodes[hidx].key == "" || nodes[hidx].key == k {
        assert StopsAt(nodes[..], h, k, r);
        if nodes[hidx].key == "" {
          nodes[hidx] := Node(k, map[]);
        }
        nodes[hidx] := nodes[hidx].(register := nodes[hidx].register[n := l]);
        return hidx;
      }
      AtNext(size, h, r);
      var next := hidx + 1;
      if next >= size {
        next := 0;
      }
      index := InsertFrom(next, k, n, l, h, r + 1, left - 1);
    }

    /** Every slot is looked at no more than once, and at most one changes: the
        first that holds the key loses the register. */
    method Delete(k: string, n: string) returns (ghost probes: nat)
      requires 0 < size == nodes.Length
      modifies nodes
      ensures probes <= size
      ensures (exists r :: FindsAt(old(nodes[..]), Hash(k, size), k, r)
                           && var i := At(size, Hash(k, size), r);
                              nodes[..] == old(nodes[..])[i := Released(old(nodes[i]), n)])
              || (nodes[..] == old(nodes[..]) && forall j | 0 <= j < size :: nodes[j].key != k)
    {
      probes := DeleteFrom(0, Hash(k, size), k, n, Hash(k, size));
    }

    method DeleteFrom(ofidx: nat, hidx: nat, k: string, n: string, ghost h: nat) returns (ghost probes: nat)
      requires ofidx < size == nodes.Length && h < size && hidx == At(size, h, ofidx)
      requires forall t | 0 <= t < ofidx :: nodes[At(size, h, t)].key != k
      modifies nodes
      ensures ofidx < probes <= size
      ensures (exists r :: FindsAt(old(nodes[..]), h, k, r)
                           && var i := At(size, h, r);
                              nodes[..] == old(nodes[..])[i := Released(old(nodes[i]), n)])
              || (nodes[..] == old(nodes[..]) && forall j | 0 <= j < size :: nodes[j].key != k)
      decreases size - ofidx
    {
      if nodes[hidx].key == k {
        assert FindsAt(nodes[..], h, k, ofidx);
        nodes[hidx] := nodes[hidx].(register := nodes[hidx].register - {n});
        if nodes[hidx].register == map[] {
          nodes[hidx] := FREE;
        }
        probes := ofidx + 1;
        return;
      }
      if ofidx + 1 == size {
        forall j | 0 <= j < size ensures nodes[j].key != k {
          assert At(size, h, Distance(size, h, j)) == j;
        }
        probes := size;
        return;
      }
      AtNext(size, h, ofidx);
      var next := if hidx + 1 >= size then 0 else hidx + 1;
      probes := DeleteFrom(ofidx + 1, next, k, n, h);
    }

    /** The taken slots and their keys in slot order. */
    method GetClaim() returns (claimed: nat, used: seq<string>)
      ensures claimed == Taken(nodes[..]) == |used|
      ensures Valid(nodes[..]) ==> claimed == |Contents(nodes[..])|
      ensures (set k | k in used) == Keys(nodes[..])
    {
      claimed, used := 0, [];
      for i := 0 to nodes.Length
        invariant claimed == Taken(nodes[..i]) == |used|
        invariant (set k | k in used) == Keys(nodes[..i])
      {
        assert nodes[..i + 1][..i] == nodes[..i];
        KeysOfPrefix(nodes[..i + 1]);
        if nodes[i].key != "" {
          claimed, used := claimed + 1, used + [nodes[i].key];
        }
      }
      assert nodes[..nodes.Length] == nodes[..];
      if Valid(nodes[..]) {
        CountOfContents(nodes[..]);
      }
    }
  }
}
