/** The base-3 Merkle trie over minute-bucketed timestamps. */
module MerkleTrie {
  import opened Wrappers
  import opened Keys
  import Timestamps

  /** A trie node: one optional child per base-3 digit, and a 32-bit hash. */
  datatype Merkle = Merkle(zero: Node, one: Node, two: Node, hash: bv32)

  /** `struct Node(Option<Box<Merkle>>)`: a child slot, empty or holding a subtrie. */
  type Node = Option<Merkle>

  /** `Merkle::default()`: no children, hash 0. */
  const Empty: Merkle := Merkle(None, None, None, 0)

  /** `Merkle::new`: the empty trie. */
  function New(): (t: Merkle)
    ensures forall p: Key :: Lookup(t, p) == if p == [] then Some(Empty) else None
    ensures forall p: Key :: HashAt(t, p) == 0
  {
    Empty
  }

  /** `Option::unwrap_or_default` on a child slot. */
  function OrDefault(n: Node): Merkle
  {
    match n
    case Some(t) => t
    case None => Empty
  }

  /** The child slot digit `d` selects; digits of 3 or more select nothing. */
  function Child(t: Merkle, d: nat): Node
  {
    if d == 0 then t.zero else if d == 1 then t.one else if d == 2 then t.two else None
  }

  /** `t` with the child slot of digit `d` replaced by `c` (`Merkle { zero: c, ..t }`). */
  function SetChild(t: Merkle, d: nat, c: Node): (r: Merkle)
    requires d < 3
    ensures Child(r, d) == c && r.hash == t.hash
    ensures forall e :: e != d ==> Child(r, e) == Child(t, e)
  {
    if d == 0 then t.(zero := c) else if d == 1 then t.(one := c) else t.(two := c)
  }

  /** The node at the end of path `p`, if the trie has one. */
  function Lookup(t: Merkle, p: Key): Node
    decreases |p|
  {
    if p == [] then Some(t)
    else match Child(t, p[0])
      case None => None
      case Some(c) => Lookup(c, p[1..])
  }

  /** The hash of the node at path `p`, 0 where there is no node. */
  function HashAt(t: Merkle, p: Key): bv32
  {
    match Lookup(t, p)
    case Some(m) => m.hash
    case None => 0
  }

  /** A missing child reads like an empty one, below the child itself. */
  lemma LookupEmpty(p: Key)
    ensures Lookup(Empty, p) == if p == [] then Some(Empty) else None
    ensures HashAt(Empty, p) == 0
  {
  }

  /** One step down: the nodes below `t` at `p` are those below its child `p[0]`
      (an absent child read as an empty node, for the hash). */
  lemma HashAtStep(t: Merkle, p: Key)
    requires p != []
    ensures HashAt(t, p) == HashAt(OrDefault(Child(t, p[0])), p[1..])
  {
    LookupEmpty(p[1..]);
  }

  /** Two tries with the same children have the same nodes below the root. */
  lemma LookupBelowRoot(t: Merkle, u: Merkle, p: Key)
    requires forall d :: Child(t, d) == Child(u, d)
    requires p != []
    ensures Lookup(t, p) == Lookup(u, p)
  {
  }

  // ---------------------------------------------------------------------------
  // Insertion as written: only the root hash changes.
  // ---------------------------------------------------------------------------

  /** `insert_key`: takes the slot (absent meaning `Merkle::default()`), pops
      the key's front digit and rebuilds the node with that digit's child
      replaced by the insertion of the rest of the key; when the key is
      exhausted, or its digit is 3 or more, the node comes back unchanged.
      The hash argument is passed down but never used. */
  function InsertKey(node: Node, key: Key, hash: bv32): (r: Merkle)
    ensures r.hash == OrDefault(node).hash
    decreases |key|
  {
    var trie := OrDefault(node);
    var (head, rest) := Split(key);
    match head
    case Some(0) => trie.(zero := Some(InsertKey(trie.zero, rest, hash)))
    case Some(1) => trie.(one := Some(InsertKey(trie.one, rest, hash)))
    case Some(2) => trie.(two := Some(InsertKey(trie.two, rest, hash)))
    case _ => trie
  }

  /** `InsertKey` in terms of the child it descends into. */
  lemma InsertKeyStep(node: Node, key: Key, hash: bv32)
    ensures var trie := OrDefault(node);
      InsertKey(node, key, hash) ==
        if key == [] || key[0] >= 3 then trie
        else SetChild(trie, key[0], Some(InsertKey(Child(trie, key[0]), key[1..], hash)))
  {
  }

  /** `insert`: takes the timestamp's hash and key, and inserts them. */
  function Insert(trie: Merkle, ts: Timestamps.Timestamp, lib: Timestamps.Foreign): (r: Merkle)
    ensures r.hash == trie.hash ^ Timestamps.Hash(ts, lib)
  {
    var hash := Timestamps.Hash(ts, lib);
    var key := KeyOf(ts);
    InsertItem(trie, key, hash)
  }

  /** The body of `insert` once hash and key are known: XORs the hash into the
      root, then runs `insert_key` from the root. */
  function InsertItem(trie: Merkle, key: Key, hash: bv32): (r: Merkle)
    ensures r.hash == trie.hash ^ hash
  {
    var node := Some(InsertKey(Some(trie.(hash := trie.hash ^ hash)), key, hash));
    OrDefault(node)
  }

  /** After inserting key `k`, every prefix of `k` leads to a node; each keeps
      the hash the old trie had there (0 for a node that is new), and at the
      end of the key the old subtrie (or an empty node) is left as it was. */
  lemma {:induction false} InsertKeyPath(node: Node, k: Key, hash: bv32, p: Key)
    requires ValidKey(k) && p <= k
    ensures Lookup(InsertKey(node, k, hash), p).Some?
    ensures HashAt(InsertKey(node, k, hash), p) == HashAt(OrDefault(node), p)
    ensures Lookup(InsertKey(node, k, hash), k) == Some(OrDefault(Lookup(OrDefault(node), k)))
    decreases |k|
  {
    var trie := OrDefault(node);
    InsertKeyStep(node, k, hash);
    if k != [] {
      var d := k[0];
      var c := Child(trie, d);
      InsertKeyPath(c, k[1..], hash, if p == [] then [] else p[1..]);
      if p != [] {
        assert p[0] == d && p[1..] <= k[1..];
        HashAtStep(trie, p);
      }
      if c.None? {
        LookupEmpty(k[1..]);
      }
    }
  }

  /** Inserting key `k` changes no path that is not a prefix of `k`. */
  lemma {:induction false} InsertKeyOffPath(node: Node, k: Key, hash: bv32, q: Key)
    requires ValidKey(k) && !(q <= k)
    ensures Lookup(InsertKey(node, k, hash), q) == Lookup(OrDefault(node), q)
    decreases |k|
  {
    var trie := OrDefault(node);
    InsertKeyStep(node, k, hash);
    if k != [] && q[0] == k[0] {
      var c := Child(trie, k[0]);
      assert !(q[1..] <= k[1..]);
      InsertKeyOffPath(c, k[1..], hash, q[1..]);
      if c.None? {
        LookupEmpty(q[1..]);
      }
    }
  }

  /** `InsertKey` leaves the hash of every node of the trie as it was. */
  lemma {:induction false} InsertKeyKeepsHashes(node: Node, k: Key, hash: bv32, p: Key)
    ensures HashAt(InsertKey(node, k, hash), p) == HashAt(OrDefault(node), p)
    decreases |k|
  {
    var trie := OrDefault(node);
    InsertKeyStep(node, k, hash);
    if k != [] && k[0] < 3 && p != [] {
      var r := InsertKey(node, k, hash);
      HashAtStep(r, p);
      HashAtStep(trie, p);
      if p[0] == k[0] {
        InsertKeyKeepsHashes(Child(trie, k[0]), k[1..], hash, p[1..]);
      }
    }
  }

  /** A key is followed only up to its first digit of 3 or more. */
  function ValidPrefix(k: Key): (v: Key)
    ensures ValidKey(v) && v <= k
    ensures |v| < |k| ==> k[|v|] >= 3
  {
    if k == [] || k[0] >= 3 then [] else [k[0]] + ValidPrefix(k[1..])
  }

  lemma {:induction false} InsertKeyStopsAtInvalidDigit(node: Node, k: Key, hash: bv32)
    ensures InsertKey(node, k, hash) == InsertKey(node, ValidPrefix(k), hash)
    decreases |k|
  {
    InsertKeyStep(node, k, hash);
    InsertKeyStep(node, ValidPrefix(k), hash);
    if k != [] && k[0] < 3 {
      var v := ValidPrefix(k);
      assert v[0] == k[0] && v[1..] == ValidPrefix(k[1..]);
      InsertKeyStopsAtInvalidDigit(Child(OrDefault(node), k[0]), k[1..], hash);
    }
  }

  /** After inserting an item, the root hash is the old one XOR the item's
      hash, and every other node's hash is what it was. */
  lemma InsertItemHashes(trie: Merkle, key: Key, hash: bv32, p: Key)
    ensures HashAt(InsertItem(trie, key, hash), p) == if p == [] then trie.hash ^ hash else HashAt(trie, p)
  {
    var rooted := trie.(hash := trie.hash ^ hash);
    var r := InsertKey(Some(rooted), key, hash);
    assert InsertItem(trie, key, hash) == r;
    InsertKeyKeepsHashes(Some(rooted), key, hash, p);
    if p != [] {
      LookupBelowRoot(rooted, trie, p);
    }
  }

  /** After inserting a valid key, the trie has a node at every prefix of the
      key, and otherwise exactly the nodes it had. */
  lemma InsertItemNodes(trie: Merkle, key: Key, hash: bv32, p: Key)
    requires ValidKey(key)
    ensures Lookup(InsertItem(trie, key, hash), p).Some? <==> p <= key || Lookup(trie, p).Some?
  {
    var rooted := trie.(hash := trie.hash ^ hash);
    if p <= key {
      InsertKeyPath(Some(rooted), key, hash, p);
    } else {
      InsertKeyOffPath(Some(rooted), key, hash, p);
      LookupBelowRoot(rooted, trie, p);
    }
  }

  /** Insertions of two keys commute (the hash arguments are never used). */
  lemma {:induction false} InsertKeyCommutes(node: Node, k1: Key, h1: bv32, k2: Key, h2: bv32)
    ensures InsertKey(Some(InsertKey(node, k1, h1)), k2, h2) == InsertKey(Some(InsertKey(node, k2, h2)), k1, h1)
    decreases |k1|
  {
    var trie := OrDefault(node);
    InsertKeyStep(node, k1, h1);
    InsertKeyStep(node, k2, h2);
    var a := InsertKey(node, k1, h1);
    var b := InsertKey(node, k2, h2);
    InsertKeyStep(Some(a), k2, h2);
    InsertKeyStep(Some(b), k1, h1);
    InsertKeyStep(Some(trie), k2, h2);
    InsertKeyStep(Some(trie), k1, h1);
    if k1 != [] && k1[0] < 3 && k2 != [] && k2[0] < 3 && k1[0] == k2[0] {
      InsertKeyCommutes(Child(trie, k1[0]), k1[1..], h1, k2[1..], h2);
    }
  }

  /** Only the root depends on the hash, so a root hash set before `InsertKey`
      is the root hash after it. */
  lemma InsertKeyRehash(t: Merkle, k: Key, hash: bv32, x: bv32)
    ensures InsertKey(Some(t.(hash := x)), k, hash) == InsertKey(Some(t), k, hash).(hash := x)
  {
    InsertKeyStep(Some(t.(hash := x)), k, hash);
    InsertKeyStep(Some(t), k, hash);
  }

  /** Two item insertions commute. */
  lemma InsertItemCommutes(trie: Merkle, ka: Key, ha: bv32, kb: Key, hb: bv32)
    ensures InsertItem(InsertItem(trie, ka, ha), kb, hb) == InsertItem(InsertItem(trie, kb, hb), ka, ha)
  {
    InsertItemThenRoot(trie, ka, ha, kb, hb);
    InsertItemThenRoot(trie, kb, hb, ka, ha);
    InsertKeyCommutes(Some(trie), ka, ha, kb, hb);
    assert trie.hash ^ ha ^ hb == trie.hash ^ hb ^ ha;
  }

  /** Two item insertions are two key insertions followed by setting the root hash. */
  lemma InsertItemThenRoot(trie: Merkle, ka: Key, ha: bv32, kb: Key, hb: bv32)
    ensures var r := InsertItem(InsertItem(trie, ka, ha), kb, hb);
      r == InsertKey(Some(InsertKey(Some(trie), ka, ha)), kb, hb).(hash := r.hash)
  {
    var a, a1 := InsertKey(Some(trie), ka, ha), InsertItem(trie, ka, ha);
    InsertItemRehash(trie, ka, ha);
    InsertKeyRehash(a, kb, hb, a1.hash);
    InsertItemRehash(a1, kb, hb);
  }

  /** An item insertion is a key insertion followed by setting the root hash. */
  lemma InsertItemRehash(t: Merkle, k: Key, h: bv32)
    ensures var r := InsertItem(t, k, h); r == InsertKey(Some(t), k, h).(hash := r.hash)
  {
    InsertItemUnfold(t, k, h);
    InsertKeyRehash(t, k, h, t.hash ^ h);
  }

  lemma InsertItemUnfold(t: Merkle, k: Key, h: bv32)
    ensures InsertItem(t, k, h) == InsertKey(Some(t.(hash := t.hash ^ h)), k, h)
  {
  }

  /** After `insert`, the root hash is the old one XOR the timestamp's hash,
      and every other node's hash is what it was. */
  lemma InsertHashes(trie: Merkle, ts: Timestamps.Timestamp, lib: Timestamps.Foreign, p: Key)
    ensures HashAt(Insert(trie, ts, lib), p) ==
      if p == [] then trie.hash ^ Timestamps.Hash(ts, lib) else HashAt(trie, p)
  {
    InsertItemHashes(trie, KeyOf(ts), Timestamps.Hash(ts, lib), p);
  }

  /** After `insert`, the trie has a node at every prefix of the timestamp's
      key, and otherwise exactly the nodes it had. */
  lemma InsertNodes(trie: Merkle, ts: Timestamps.Timestamp, lib: Timestamps.Foreign, p: Key)
    ensures Lookup(Insert(trie, ts, lib), p).Some? <==> p <= KeyOf(ts) || Lookup(trie, p).Some?
  {
    InsertItemNodes(trie, KeyOf(ts), Timestamps.Hash(ts, lib), p);
  }

  /** XOR cancels: inserting the same timestamp twice restores the root hash. */
  lemma InsertTwiceRestoresRootHash(trie: Merkle, ts: Timestamps.Timestamp, lib: Timestamps.Foreign)
    ensures Insert(Insert(trie, ts, lib), ts, lib).hash == trie.hash
  {
  }

  /** Inserting two timestamps in either order yields the same trie. */
  lemma InsertCommutes(trie: Merkle, a: Timestamps.Timestamp, b: Timestamps.Timestamp, lib: Timestamps.Foreign)
    ensures Insert(Insert(trie, a, lib), b, lib) == Insert(Insert(trie, b, lib), a, lib)
  {
    InsertItemCommutes(trie, KeyOf(a), Timestamps.Hash(a, lib), KeyOf(b), Timestamps.Hash(b, lib));
  }

  /** Bucket 0 (ten milliseconds) into the empty trie: the root takes the
      item's hash and gains a `zero` child that is an empty node with hash 0. */
  lemma InsertIntoEmptyExample(lib: Timestamps.Foreign)
    ensures Insert(New(), Timestamps.FromMillis(10), lib) ==
      Merkle(Some(Merkle(None, None, None, 0)), None, None, Timestamps.Hash(Timestamps.FromMillis(10), lib))
  {
    var ts := Timestamps.FromMillis(10);
    FromMillisIsBase3(10, [0]);
    assert KeyOf(ts) == [0];
    InsertKeyStep(Some(New().(hash := Timestamps.Hash(ts, lib))), [0], Timestamps.Hash(ts, lib));
  }

  /** The digits `insert_key` leaves in the key it consumes: none when every
      digit is a trie digit, else those after the first digit of 3 or more. */
  function Unconsumed(k: Key): (rest: Key)
    ensures |rest| < |k| || k == []
    ensures ValidKey(k) ==> rest == []
  {
    if k == [] then [] else if k[0] < 3 then Unconsumed(k[1..]) else k[1..]
  }

  /** `insert_key` as the source runs it: popping digits off the key it owns
      with `Key::pop_front` and handing the rest of the key to the recursive
      call. It builds the trie `InsertKey` specifies. */
  method InsertKeyFrom(node: Node, key: KeyBuffer, hash: bv32) returns (r: Merkle)
    modifies key
    ensures r == InsertKey(node, old(key.digits), hash)
    ensures key.digits == Unconsumed(old(key.digits))
    decreases |key.digits|
  {
    var trie := OrDefault(node);
    var head := key.PopFront();
    match head
    case Some(0) =>
      var c := InsertKeyFrom(trie.zero, key, hash);
      r := trie.(zero := Some(c));
    case Some(1) =>
      var c := InsertKeyFrom(trie.one, key, hash);
      r := trie.(one := Some(c));
    case Some(2) =>
      var c := InsertKeyFrom(trie.two, key, hash);
      r := trie.(two := Some(c));
    case _ =>
      r := trie;
  }

  // ---------------------------------------------------------------------------
  // Many insertions.
  // ---------------------------------------------------------------------------

  /** What `insert` computes from a timestamp before touching the trie. */
  datatype Item = Item(key: Key, hash: bv32)

  function ItemOf(ts: Timestamps.Timestamp, lib: Timestamps.Foreign): Item
  {
    Item(KeyOf(ts), Timestamps.Hash(ts, lib))
  }

  function ItemsOf(tss: seq<Timestamps.Timestamp>, lib: Timestamps.Foreign): (items: seq<Item>)
    ensures |items| == |tss| && forall i :: 0 <= i < |tss| ==> items[i] == ItemOf(tss[i], lib)
  {
    seq(|tss|, i requires 0 <= i < |tss| => ItemOf(tss[i], lib))
  }

  /** The trie after inserting `tss`, in order, into a new trie. */
  function Build(tss: seq<Timestamps.Timestamp>, lib: Timestamps.Foreign): Merkle
    decreases |tss|
  {
    if tss == [] then New()
    else Insert(Build(tss[..|tss| - 1], lib), tss[|tss| - 1], lib)
  }

  /** The trie after inserting `items`, in order, into a new trie. */
  function BuildItems(items: seq<Item>): Merkle
    decreases |items|
  {
    if items == [] then New()
    else
      var last := items[|items| - 1];
      InsertItem(BuildItems(items[..|items| - 1]), last.key, last.hash)
  }

  /** Inserting timestamps is inserting the items computed from them. */
  lemma {:induction false} BuildIsBuildItems(tss: seq<Timestamps.Timestamp>, lib: Timestamps.Foreign)
    ensures Build(tss, lib) == BuildItems(ItemsOf(tss, lib))
    decreases |tss|
  {
    if tss != [] {
      var front, last := tss[..|tss| - 1], tss[|tss| - 1];
      BuildIsBuildItems(front, lib);
      ItemsOfFront(tss, lib);
      InsertIsInsertItem(Build(front, lib), last, lib);
    }
  }

  lemma ItemsOfFront(tss: seq<Timestamps.Timestamp>, lib: Timestamps.Foreign)
    requires tss != []
    ensures var items := ItemsOf(tss, lib);
      items[..|tss| - 1] == ItemsOf(tss[..|tss| - 1], lib) && items[|tss| - 1] == ItemOf(tss[|tss| - 1], lib)
  {
    assert ItemsOf(tss, lib)[..|tss| - 1] == ItemsOf(tss[..|tss| - 1], lib);
  }

  lemma InsertIsInsertItem(trie: Merkle, ts: Timestamps.Timestamp, lib: Timestamps.Foreign)
    ensures var item := ItemOf(ts, lib); Insert(trie, ts, lib) == InsertItem(trie, item.key, item.hash)
  {
  }

  /** XOR of the hashes of those `items` whose key passes through path `p`. */
  function XorThrough(items: seq<Item>, p: Key): bv32
    decreases |items|
  {
    if items == [] then 0
    else
      var last := items[|items| - 1];
      XorThrough(items[..|items| - 1], p) ^ (if IsPrefix(p, last.key) then last.hash else 0)
  }

  /** As written, the root aggregates the hashes of all inserted items and
      every other node keeps hash 0. */
  lemma {:induction false} BuildHashes(items: seq<Item>, p: Key)
    ensures HashAt(BuildItems(items), p) == if p == [] then XorThrough(items, []) else 0
  {
    if p == [] {
      BuildRootHash(items);
    } else {
      BuildBelowRoot(items, p);
    }
  }

  /** The root hash of a built trie is the XOR of the hashes of all items. */
  lemma {:induction false} BuildRootHash(items: seq<Item>)
    ensures BuildItems(items).hash == XorThrough(items, [])
    decreases |items|
  {
    if items != [] {
      var front, last := items[..|items| - 1], items[|items| - 1];
      BuildRootHash(front);
      var e: Key := [];
      assert e <= last.key;
    }
  }

  /** Below the root, every node of a built trie keeps hash 0. */
  lemma {:induction false} BuildBelowRoot(items: seq<Item>, p: Key)
    requires p != []
    ensures HashAt(BuildItems(items), p) == 0
    decreases |items|
  {
    if items == [] {
      LookupEmpty(p);
    } else {
      var front, last := items[..|items| - 1], items[|items| - 1];
      BuildBelowRoot(front, p);
      InsertItemHashes(BuildItems(front), last.key, last.hash, p);
    }
  }

  /** Every key of `items` is a trie path. */
  predicate ValidItems(items: seq<Item>)
  {
    forall i :: 0 <= i < |items| ==> ValidKey(items[i].key)
  }

  /** The trie has a node exactly at the root and at every prefix of an
      inserted item's key. */
  lemma {:induction false} BuildNodes(items: seq<Item>, p: Key)
    requires ValidItems(items)
    ensures Lookup(BuildItems(items), p).Some? <==>
      (p == [] || exists j :: 0 <= j < |items| && p <= items[j].key)
    decreases |items|
  {
    if items == [] {
      LookupEmpty(p);
    } else {
      var front, last := items[..|items| - 1], items[|items| - 1];
      assert ValidItems(front) by {
        forall i | 0 <= i < |front| ensures ValidKey(front[i].key) {
          assert front[i] == items[i];
        }
      }
      BuildNodes(front, p);
      InsertItemNodes(BuildItems(front), last.key, last.hash, p);
      if exists j :: 0 <= j < |items| && p <= items[j].key {
        var j :| 0 <= j < |items| && p <= items[j].key;
        if j < |front| {
          assert items[j] == front[j];
        }
      }
      if exists j :: 0 <= j < |front| && p <= front[j].key {
        var j :| 0 <= j < |front| && p <= front[j].key;
        assert items[j] == front[j];
      }
    }
  }

  // ---------------------------------------------------------------------------
  // Per-node hashing: the variant the comment "Need to hash here" in
  // `insert_key` asks for, kept apart from the behaviour as written.
  // ---------------------------------------------------------------------------

  /** `insert_key` with the hash XORed into every node it passes, the last one
      included. */
  function InsertKeyHashed(node: Node, key: Key, hash: bv32): Merkle
    decreases |key|
  {
    var trie := OrDefault(node);
    var rebuilt :=
      if key == [] || key[0] >= 3 then trie
      else SetChild(trie, key[0], Some(InsertKeyHashed(Child(trie, key[0]), key[1..], hash)));
    rebuilt.(hash := trie.hash ^ hash)
  }

  /** The child on the key's path is the insertion of the rest of the key. */
  lemma InsertKeyHashedOnPath(node: Node, key: Key, hash: bv32)
    requires key != [] && key[0] < 3
    ensures Child(InsertKeyHashed(node, key, hash), key[0]) ==
      Some(InsertKeyHashed(Child(OrDefault(node), key[0]), key[1..], hash))
  {
  }

  /** Every child off the key's path is the old one. */
  lemma InsertKeyHashedOffPath(node: Node, key: Key, hash: bv32, d: nat)
    requires key == [] || key[0] != d
    ensures Child(InsertKeyHashed(node, key, hash), d) == Child(OrDefault(node), d)
  {
  }

  /** `insert` with per-node hashing: the root is hashed by `InsertKeyHashed` itself. */
  function InsertHashed(trie: Merkle, ts: Timestamps.Timestamp, lib: Timestamps.Foreign): Merkle
  {
    InsertKeyHashed(Some(trie), KeyOf(ts), Timestamps.Hash(ts, lib))
  }

  /** With per-node hashing, every node on the key's path takes the item's hash
      and every other node keeps its own. */
  lemma {:induction false} InsertKeyHashedHashes(node: Node, k: Key, hash: bv32, p: Key)
    requires ValidKey(k)
    ensures IsPrefix(p, k) ==> HashAt(InsertKeyHashed(node, k, hash), p) == HashAt(OrDefault(node), p) ^ hash
    ensures !IsPrefix(p, k) ==> HashAt(InsertKeyHashed(node, k, hash), p) == HashAt(OrDefault(node), p)
    decreases |k|
  {
    if p == [] {
      HashedRootStep(node, k, hash);
    } else if k != [] && p[0] == k[0] {
      var c := Child(OrDefault(node), k[0]);
      assert ValidKey(k[1..]);
      InsertKeyHashedHashes(c, k[1..], hash, p[1..]);
      HashedOnPathStep(node, k, hash, p);
    } else {
      HashedOffPathStep(node, k, hash, p);
    }
  }

  /** `insert` with per-node hashing XORs the timestamp's hash into every node
      on the path of its key and leaves every other node's hash alone. */
  lemma InsertHashedHashes(trie: Merkle, ts: Timestamps.Timestamp, lib: Timestamps.Foreign, p: Key)
    ensures IsPrefix(p, KeyOf(ts)) ==> HashAt(InsertHashed(trie, ts, lib), p) == HashAt(trie, p) ^ Timestamps.Hash(ts, lib)
    ensures !IsPrefix(p, KeyOf(ts)) ==> HashAt(InsertHashed(trie, ts, lib), p) == HashAt(trie, p)
  {
    InsertKeyHashedHashes(Some(trie), KeyOf(ts), Timestamps.Hash(ts, lib), p);
  }

  lemma HashedRootStep(node: Node, k: Key, hash: bv32)
    ensures HashAt(InsertKeyHashed(node, k, hash), []) == HashAt(OrDefault(node), []) ^ hash
    ensures IsPrefix([], k)
  {
    InsertKeyHashedRoot(node, k, hash);
  }

  lemma HashedOnPathStep(node: Node, k: Key, hash: bv32, p: Key)
    requires p != [] && k != [] && p[0] == k[0] && k[0] < 3
    ensures HashAt(InsertKeyHashed(node, k, hash), p) == HashAt(InsertKeyHashed(Child(OrDefault(node), k[0]), k[1..], hash), p[1..])
    ensures HashAt(OrDefault(node), p) == HashAt(OrDefault(Child(OrDefault(node), k[0])), p[1..])
    ensures IsPrefix(p, k) == IsPrefix(p[1..], k[1..])
  {
    InsertKeyHashedOnPath(node, k, hash);
    HashAtStep(InsertKeyHashed(node, k, hash), p);
    HashAtStep(OrDefault(node), p);
    PrefixStep(p, k);
  }

  lemma HashedOffPathStep(node: Node, k: Key, hash: bv32, p: Key)
    requires p != [] && (k == [] || p[0] != k[0])
    ensures HashAt(InsertKeyHashed(node, k, hash), p) == HashAt(OrDefault(node), p)
    ensures !IsPrefix(p, k)
  {
    PrefixHead(p, k);
    InsertKeyHashedOffPath(node, k, hash, p[0]);
    HashAtStep(InsertKeyHashed(node, k, hash), p);
    HashAtStep(OrDefault(node), p);
  }

  /** The root itself always takes the item's hash. */
  lemma InsertKeyHashedRoot(node: Node, k: Key, hash: bv32)
    ensures InsertKeyHashed(node, k, hash).hash == OrDefault(node).hash ^ hash
  {
  }

  /** `p` passes through the node that key `k` leads to: the prefix relation
      `p <= k` under a name of its own, which keeps the hash lemmas below
      cheap for the solver. */
  predicate IsPrefix(p: Key, k: Key)
  {
    p <= k
  }

  lemma PrefixStep(p: Key, k: Key)
    requires p != [] && k != [] && p[0] == k[0]
    ensures IsPrefix(p, k) == IsPrefix(p[1..], k[1..])
  {
    if p[1..] <= k[1..] {
      assert p == [p[0]] + p[1..] && k == [k[0]] + k[1..];
    }
  }

  lemma PrefixHead(p: Key, k: Key)
    requires p != [] && (k == [] || p[0] != k[0])
    ensures !IsPrefix(p, k)
  {
  }

  /** The trie after inserting `items`, in order, with per-node hashing. */
  function BuildItemsHashed(items: seq<Item>): Merkle
    decreases |items|
  {
    if items == [] then New()
    else
      var last := items[|items| - 1];
      InsertKeyHashed(Some(BuildItemsHashed(items[..|items| - 1])), last.key, last.hash)
  }

  /** With per-node hashing, every node's hash is the XOR of the hashes of the
      items whose key passes through it. */
  lemma {:induction false} BuildHashedAggregates(items: seq<Item>, p: Key)
    requires ValidItems(items)
    ensures HashAt(BuildItemsHashed(items), p) == XorThrough(items, p)
    decreases |items|
  {
    if items == [] {
      LookupEmpty(p);
    } else {
      ValidItemsFront(items);
      BuildHashedAggregates(items[..|items| - 1], p);
      BuildHashedStep(items, p);
    }
  }

  lemma BuildHashedStep(items: seq<Item>, p: Key)
    requires items != [] && ValidKey(items[|items| - 1].key)
    ensures var last := items[|items| - 1];
      HashAt(BuildItemsHashed(items), p) ==
      HashAt(BuildItemsHashed(items[..|items| - 1]), p) ^ (if IsPrefix(p, last.key) then last.hash else 0)
  {
    var t, last := BuildItemsHashed(items[..|items| - 1]), items[|items| - 1];
    InsertKeyHashedHashes(Some(t), last.key, last.hash, p);
  }

  lemma ValidItemsFront(items: seq<Item>)
    requires ValidItems(items) && items != []
    ensures ValidItems(items[..|items| - 1]) && ValidKey(items[|items| - 1].key)
  {
    var front := items[..|items| - 1];
    forall i | 0 <= i < |front| ensures ValidKey(front[i].key) {
      assert front[i] == items[i];
    }
  }
}
