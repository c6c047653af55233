/** Saving a forest as one binary blob in a key-value store, and loading it back. */
module ModelStore {
  import opened Options
  import opened ByteStrings
  import opened Words
  import opened IsolationForest

  /** The memory of a 32-bit int: two's complement, least significant byte first. */
  function IntBytes(x: Int32): (b: Bytes)
    ensures |b| == 4
  {
    var u := if x < 0 then x + 0x1_0000_0000 else x;
    [u % 256, u / 256 % 256, u / 256 / 256 % 256, u / 256 / 256 / 256]
  }

  function Unsigned(b0: int, b1: int, b2: int, b3: int): int {
    b0 + 256 * (b1 + 256 * (b2 + 256 * b3))
  }

  function BytesInt(b: Bytes): Int32
    requires |b| == 4
  {
    var u := Unsigned(b[0], b[1], b[2], b[3]);
    if u > INT_MAX then u - 0x1_0000_0000 else u
  }

  lemma IntRoundTrip(x: Int32)
    ensures BytesInt(IntBytes(x)) == x
  {
  }

  lemma BytesRoundTrip(b: Bytes)
    requires |b| == 4
    ensures IntBytes(BytesInt(b)) == b
  {
    UnsignedDigits(b[0], b[1], b[2], b[3]);
  }

  lemma UnsignedDigits(b0: Byte, b1: Byte, b2: Byte, b3: Byte)
    ensures var u := Unsigned(b0, b1, b2, b3);
            && 0 <= u < 0x1_0000_0000
            && u % 256 == b0 && u / 256 % 256 == b1 && u / 256 / 256 % 256 == b2 && u / 256 / 256 / 256 == b3
  {
  }

  predicate Fits(node: Node) {
    INT_MIN <= node.featureIdx <= INT_MAX && INT_MIN <= node.threshold <= INT_MAX
  }

  predicate AllFit(nodes: seq<Node>) {
    forall k | 0 <= k < |nodes| :: Fits(nodes[k])
  }

  function NodeBytes(node: Node): (b: Bytes)
    requires Fits(node)
    ensures |b| == 8
  {
    IntBytes(node.featureIdx) + IntBytes(node.threshold)
  }

  /** The memory of an array of nodes. */
  function NodesBytes(nodes: seq<Node>): (b: Bytes)
    requires AllFit(nodes)
    ensures |b| == 8 * |nodes|
  {
    if nodes == [] then [] else NodeBytes(nodes[0]) + NodesBytes(nodes[1..])
  }

  function BytesNode(b: Bytes): (node: Node)
    requires |b| == 8
    ensures Fits(node)
  {
    Node(BytesInt(b[..4]), BytesInt(b[4..]))
  }

  function BytesNodes(b: Bytes, n: nat): (nodes: seq<Node>)
    requires |b| >= 8 * n
    ensures |nodes| == n && AllFit(nodes)
  {
    if n == 0 then [] else [BytesNode(b[..8])] + BytesNodes(b[8..], n - 1)
  }

  lemma {:induction false} NodesRoundTrip(nodes: seq<Node>)
    requires AllFit(nodes)
    ensures BytesNodes(NodesBytes(nodes), |nodes|) == nodes
  {
    if nodes != [] {
      var head, rest := NodeBytes(nodes[0]), NodesBytes(nodes[1..]);
      assert (head + rest)[..8] == head && (head + rest)[8..] == rest;
      assert head[..4] == IntBytes(nodes[0].featureIdx) && head[4..] == IntBytes(nodes[0].threshold);
      IntRoundTrip(nodes[0].featureIdx);
      IntRoundTrip(nodes[0].threshold);
      NodesRoundTrip(nodes[1..]);
    }
  }

  lemma {:induction false} NodesBytesRoundTrip(b: Bytes, n: nat)
    requires |b| == 8 * n
    ensures NodesBytes(BytesNodes(b, n)) == b
  {
    if n > 0 {
      var head := b[..8];
      BytesRoundTrip(head[..4]);
      BytesRoundTrip(head[4..]);
      assert head == head[..4] + head[4..] && b == head + b[8..];
      NodesBytesRoundTrip(b[8..], n - 1);
    }
  }

  // ---------------------------------------------------------------- whole forests

  /** A forest as the codec sees it: counts and nodes that fit an int, and a blob size that fits one too. */
  datatype ForestData = ForestData(maxDepth: int, nodes: seq<Node>) {
    predicate Storable() {
      INT_MIN <= maxDepth <= INT_MAX && AllFit(nodes) && 8 + 8 * |nodes| <= INT_MAX
    }
  }

  function Encode(f: ForestData): (b: Bytes)
    requires f.Storable()
    ensures |b| == 8 + 8 * |f.nodes|
  {
    IntBytes(|f.nodes|) + IntBytes(f.maxDepth) + NodesBytes(f.nodes)
  }

  /** The blob announces a node count and is at least as long as that count needs. */
  predicate WellFormed(b: Bytes) {
    |b| >= 8 && 0 <= BytesInt(b[..4]) && 8 + 8 * BytesInt(b[..4]) <= |b|
  }

  /** Offset and size, in 64-bit unsigned arithmetic, of what loading copies out of a blob. */
  function Copies(b: Bytes): seq<(nat, nat)> {
    if |b| < 4 then [(0, 4)] else [(0, 4), (4, 4), (8, 8 * BytesInt(b[..4]) % WORD)]
  }

  /** Loading stays inside a blob exactly when the blob is well formed; its length is an int, never looked at. */
  lemma WellFormedIsReadable(b: Bytes)
    requires |b| <= INT_MAX
    ensures (forall k | 0 <= k < |Copies(b)| :: Copies(b)[k].0 + Copies(b)[k].1 <= |b|) <==> WellFormed(b)
  {
    var copies := Copies(b);
    assert copies[0] == (0, 4);
    if |b| >= 4 {
      var n := BytesInt(b[..4]);
      assert copies[1] == (4, 4) && copies[2] == (8, 8 * n % WORD);
      assert n >= 0 ==> 8 * n % WORD == 8 * n;
      assert n < 0 ==> 8 * n % WORD == WORD + 8 * n;
    }
  }

  function Decode(b: Bytes): ForestData
    requires WellFormed(b)
  {
    ForestData(BytesInt(b[4..8]), BytesNodes(b[8..], BytesInt(b[..4])))
  }

  /** What is saved is what is loaded. */
  lemma ForestRoundTrip(f: ForestData)
    requires f.Storable()
    ensures WellFormed(Encode(f)) && Decode(Encode(f)) == f
  {
    var b := Encode(f);
    assert b[..4] == IntBytes(|f.nodes|) && b[4..8] == IntBytes(f.maxDepth) && b[8..] == NodesBytes(f.nodes);
    IntRoundTrip(|f.nodes|);
    IntRoundTrip(f.maxDepth);
    NodesRoundTrip(f.nodes);
  }

  /** And a blob of exactly the announced size is what saving the loaded forest writes. */
  lemma BlobRoundTrip(b: Bytes)
    requires WellFormed(b) && |b| == 8 + 8 * BytesInt(b[..4]) <= INT_MAX
    ensures Decode(b).Storable() && Encode(Decode(b)) == b
  {
    BytesRoundTrip(b[..4]);
    BytesRoundTrip(b[4..8]);
    NodesBytesRoundTrip(b[8..], BytesInt(b[..4]));
    assert b == b[..4] + b[4..8] + b[8..];
  }

  /** The 32-bit int at an offset of a blob: two's complement, least significant byte first. */
  function IntAt(b: Bytes, at: nat): int
    requires at + 4 <= |b|
  {
    var b0: int, b1: int, b2: int, b3: int := b[at], b[at + 1], b[at + 2], b[at + 3];
    var u := b0 + 0x100 * b1 + 0x1_0000 * b2 + 0x100_0000 * b3;
    if u < 0x8000_0000 then u else u - 0x1_0000_0000
  }

  lemma IntBytesAt(x: Int32, b: Bytes, at: nat)
    requires at + 4 <= |b| && b[at..at + 4] == IntBytes(x)
    ensures IntAt(b, at) == x
  {
    var c := b[at..at + 4];
    assert c[0] == b[at] && c[1] == b[at + 1] && c[2] == b[at + 2] && c[3] == b[at + 3];
  }

  lemma {:induction false} NodeBytesAt(nodes: seq<Node>, k: nat)
    requires AllFit(nodes) && k < |nodes|
    ensures NodesBytes(nodes)[8 * k..8 * k + 8] == NodeBytes(nodes[k])
  {
    var head, rest := NodeBytes(nodes[0]), NodesBytes(nodes[1..]);
    assert NodesBytes(nodes) == head + rest;
    if k == 0 {
      assert (head + rest)[0..8] == head;
    } else {
      NodeBytesAt(nodes[1..], k - 1);
      assert (head + rest)[8 * k..8 * k + 8] == rest[8 * (k - 1)..8 * (k - 1) + 8];
    }
  }

  /** The blob: the node count, the depth, and from offset 8 the nodes, each its feature index and its threshold. */
  lemma EncodedLayout(f: ForestData, k: nat)
    requires f.Storable()
    ensures var b := Encode(f);
            && IntAt(b, 0) == |f.nodes| && IntAt(b, 4) == f.maxDepth
            && (k < |f.nodes| ==>
                  IntAt(b, 8 + 8 * k) == f.nodes[k].featureIdx && IntAt(b, 12 + 8 * k) == f.nodes[k].threshold)
  {
    var b, nodes := Encode(f), NodesBytes(f.nodes);
    assert b[0..4] == IntBytes(|f.nodes|) && b[4..8] == IntBytes(f.maxDepth);
    IntBytesAt(|f.nodes|, b, 0);
    IntBytesAt(f.maxDepth, b, 4);
    if k < |f.nodes| {
      NodeBytesAt(f.nodes, k);
      assert b[8 + 8 * k..16 + 8 * k] == nodes[8 * k..8 * k + 8];
      NodeAt(f.nodes[k], b, 8 + 8 * k);
    }
  }

  lemma NodeAt(node: Node, b: Bytes, at: nat)
    requires Fits(node) && at + 8 <= |b| && b[at..at + 8] == NodeBytes(node)
    ensures IntAt(b, at) == node.featureIdx && IntAt(b, at + 4) == node.threshold
  {
    assert b[at..at + 4] == b[at..at + 8][..4] && b[at + 4..at + 8] == b[at..at + 8][4..];
    assert NodeBytes(node)[..4] == IntBytes(node.featureIdx) && NodeBytes(node)[4..] == IntBytes(node.threshold);
    IntBytesAt(node.featureIdx, b, at);
    IntBytesAt(node.threshold, b, at + 4);
  }

  // ---------------------------------------------------------------- the implementation

  /** The model table: one blob for each key; every call fails while the database is closed. */
  class Db {
    var open: bool
    var models: map<string, Bytes>

    constructor (open: bool)
      ensures this.open == open && models == map[]
    {
      this.open, models := open, map[];
    }

    /** works is false when the statement fails. */
    method StoreModel(key: string, blob: Bytes, works: bool) returns (rc: int)
      modifies this`models
      ensures rc == 0 <==> open && works
      ensures rc == 0 || rc == -1
      ensures models == if rc == 0 then old(models)[key := blob] else old(models)
    {
      if !open || !works {
        return -1;
      }
      models := models[key := blob];
      return 0;
    }

    method LoadModel(key: string, allocates: bool) returns (blob: Option<Bytes>)
      ensures blob == if open && allocates && key in models then Some(models[key]) else None
    {
      if !open || !allocates || key !in models {
        return None;
      }
      return Some(models[key]);
    }
  }

  method Memcpy(dst: array<Byte>, at: nat, src: Bytes)
    requires at + |src| <= dst.Length
    modifies dst
    ensures dst[..at] == old(dst[..at]) && dst[at..at + |src|] == src && dst[at + |src|..] == old(dst[at + |src|..])
  {
    for i := 0 to |src|
      invariant dst[..at] == old(dst[..at]) && dst[at..at + i] == src[..i]
      invariant dst[at + i..] == old(dst[at + i..])
    {
      dst[at + i] := src[i];
      assert dst[at..at + i + 1] == dst[at..at + i] + [src[i]];
    }
  }

  ghost function Data(f: Forest): ForestData
    requires f.Allocated()
    reads f, f.trees
  {
    ForestData(f.maxDepth, f.Nodes())
  }

  /** ai_model_save; key or f missing is a NULL pointer, and works says whether malloc and the database do. */
  method Save(key: Option<string>, f: Forest?, db: Db, allocates: bool, works: bool) returns (rc: int)
    requires f != null ==> f.nTrees >= 0 && f.Allocated() && Data(f).Storable()
    modifies db`models
    ensures rc == 0 <==> key.Some? && f != null && allocates && db.open && works
    ensures rc == 0 || rc == -1
    ensures rc == 0 ==> db.models == old(db.models)[key.value := Encode(Data(f))]
    ensures rc != 0 ==> db.models == old(db.models)
  {
    if key.None? || f == null || !allocates {
      return -1;
    }
    var bytes := 4 * 2 + 8 * f.nTrees;
    var blob := new Byte[bytes];
    var p := 0;
    Memcpy(blob, p, IntBytes(f.nTrees));
    p := p + 4;
    Memcpy(blob, p, IntBytes(f.maxDepth));
    assert blob[..8] == blob[..4] + blob[4..8];
    p := p + 4;
    var trees := if f.nTrees == 0 then [] else f.trees[..f.nTrees];
    Memcpy(blob, p, NodesBytes(trees));
    assert blob[..] == blob[..8] + blob[8..8 + |NodesBytes(trees)|];
    rc := db.StoreModel(key.value, blob[..], works);
  }

  /** ai_model_load. A stored blob is trusted to be well formed: its length is never looked at. */
  method Load(key: Option<string>, f: Forest?, db: Db, allocates: bool) returns (rc: int)
    requires key.Some? && key.value in db.models ==> WellFormed(db.models[key.value])
    modifies f
    ensures rc == 0 <==> key.Some? && f != null && allocates && db.open && key.value in db.models
    ensures rc == 0 || rc == -1
    ensures rc == 0 ==> f.nTrees >= 0 && fresh(f.trees) && f.trees.Length == f.nTrees
    ensures rc == 0 ==> Data(f) == Decode(db.models[key.value])
    ensures rc != 0 && f != null ==> unchanged(f)
  {
    if key.None? || f == null {
      return -1;
    }
    var loaded := db.LoadModel(key.value, allocates);
    if loaded.None? {
      return -1;
    }
    var blob, p := loaded.value, 0;
    f.nTrees := BytesInt(blob[p..p + 4]);
    p := p + 4;
    f.maxDepth := BytesInt(blob[p..p + 4]);
    p := p + 4;
    var nodes := BytesNodes(blob[p..], f.nTrees);
    var trees := new Node[f.nTrees](i requires 0 <= i < |nodes| => nodes[i]);
    f.trees := trees;
    assert trees[..] == nodes;
    return 0;
  }

  /** A forest saved and loaded again under its key gives every feature vector the score it had. */
  method SaveThenLoad(key: string, f: Forest, g: Forest, db: Db, features: seq<int>, n: int) returns (ok: bool)
    requires f != g && 0 < f.nTrees && 5 * f.nTrees <= INT_MAX && f.Valid() && Data(f).Storable() && n <= |features|
    modifies db`models, g
    ensures ok == db.open
    ensures ok ==> g.Valid() && Data(g) == Data(f) && g.nTrees == f.nTrees
    ensures ok ==> Score(g.Nodes(), g.maxDepth, features, n) == Score(f.Nodes(), f.maxDepth, features, n)
    ensures forall k | k in old(db.models) && k != key :: k in db.models && db.models[k] == old(db.models)[k]
  {
    var rc := Save(Some(key), f, db, true, true);
    if rc != 0 {
      return false;
    }
    ForestRoundTrip(Data(f));
    rc := Load(Some(key), g, db, true);
    assert g.Nodes() == f.Nodes();
    return true;
  }
}
