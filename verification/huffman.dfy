/** The Huffman coding engine of the GRIN format: the tree over 9-bit values,
    its construction from a frequency map, the code table derived from it,
    its pre-order serialisation, and the payload encoder and decoder. */
module Huffman {
  import opened BitStream

  /** A 9-bit value: a byte 0..255, the end-of-stream marker 256, or one of
      the values up to 511 that a serialised tree can carry. */
  type Value = v: int | 0 <= v < 512

  /** The end-of-stream symbol. */
  const EOF: Value := 256

  /** A tree node. Internal nodes carry no value; trees read back from a bit
      stream carry frequency 0 everywhere. */
  datatype Node =
    | Leaf(value: Value, freq: int)
    | Internal(left: Node, right: Node, freq: int)

  // ---------------------------------------------------------------------
  // Shape

  /** The leaf values, left to right. */
  function LeafValues(t: Node): (vs: seq<Value>)
    ensures |vs| >= 1
  {
    match t
    case Leaf(v, _) => [v]
    case Internal(l, r, _) => LeafValues(l) + LeafValues(r)
  }

  function LeafCount(t: Node): nat
  {
    match t
    case Leaf(_, _) => 1
    case Internal(l, r, _) => LeafCount(l) + LeafCount(r)
  }

  function InternalCount(t: Node): nat
  {
    match t
    case Leaf(_, _) => 0
    case Internal(l, r, _) => 1 + InternalCount(l) + InternalCount(r)
  }

  /** The sum of the leaf frequencies. */
  function LeafWeight(t: Node): int
  {
    match t
    case Leaf(_, f) => f
    case Internal(l, r, _) => LeafWeight(l) + LeafWeight(r)
  }

  /** Every internal node's frequency is the sum of its two children's. */
  ghost predicate WellFormed(t: Node)
  {
    match t
    case Leaf(_, _) => true
    case Internal(l, r, f) => f == l.freq + r.freq && WellFormed(l) && WellFormed(r)
  }

  /** Every leaf's value is a key of `freqs` and its frequency is that key's. */
  ghost predicate LeavesCarry(t: Node, freqs: map<Value, int>)
  {
    match t
    case Leaf(v, f) => v in freqs && freqs[v] == f
    case Internal(l, r, _) => LeavesCarry(l, freqs) && LeavesCarry(r, freqs)
  }

  /** In a well-formed tree the root's frequency is the total leaf weight. */
  lemma {:induction false} WeightOfWellFormed(t: Node)
    requires WellFormed(t)
    ensures t.freq == LeafWeight(t)
  {
    if t.Internal? {
      WeightOfWellFormed(t.left);
      WeightOfWellFormed(t.right);
    }
  }

  /** The tree as `readTree` rebuilds it: same shape and values, frequency 0. */
  function Erase(t: Node): (e: Node)
    ensures LeafValues(e) == LeafValues(t)
  {
    match t
    case Leaf(v, _) => Leaf(v, 0)
    case Internal(l, r, _) => Internal(Erase(l), Erase(r), 0)
  }

  // ---------------------------------------------------------------------
  // Code table (generateCodes)

  /** The codes of the leaves below `t`, each the path `path` to `t`
      followed by the path from `t` to the leaf (0 = left, 1 = right). When a
      value labels several leaves the rightmost leaf's path is kept, as later
      `put`s overwrite earlier ones. */
  function CodeTable(t: Node, path: seq<bit>): (r: map<Value, seq<bit>>)
    ensures forall v :: v in r ==> |path| <= |r[v]|
    ensures t.Internal? ==> forall v :: v in r ==> |path| < |r[v]|
  {
    match t
    case Leaf(v, _) => map[v := path]
    case Internal(l, r, _) => CodeTable(l, path + [0]) + CodeTable(r, path + [1])
  }

  /** Following `path` from `t` ends exactly at a leaf labelled `v`. */
  ghost predicate ReachesLeaf(t: Node, path: seq<bit>, v: Value)
    decreases |path|
  {
    if path == [] then t.Leaf? && t.value == v
    else t.Internal? && ReachesLeaf(if path[0] == 0 then t.left else t.right, path[1..], v)
  }

  /** No code of the table is a prefix of another value's code. */
  ghost predicate PrefixFree(codes: map<Value, seq<bit>>)
  {
    forall v, w :: v in codes && w in codes && v != w ==> !(codes[v] <= codes[w])
  }

  /** The table has exactly one entry per leaf value. */
  lemma {:induction false} CodeTableKeys(t: Node, path: seq<bit>)
    ensures forall v :: v in CodeTable(t, path) <==> v in LeafValues(t)
  {
    if t.Internal? {
      CodeTableKeys(t.left, path + [0]);
      CodeTableKeys(t.right, path + [1]);
    }
  }

  /** Each code is the root-to-leaf path of a leaf carrying its value. */
  lemma {:induction false} CodeTablePaths(t: Node, path: seq<bit>, v: Value)
    requires v in CodeTable(t, path)
    ensures var c := CodeTable(t, path)[v];
      |path| <= |c| && c[..|path|] == path && ReachesLeaf(t, c[|path|..], v)
  {
    var c := CodeTable(t, path)[v];
    match t
    case Leaf(_, _) =>
      assert c[|path|..] == [];
    case Internal(l, r, _) =>
      var b: bit := if v in CodeTable(r, path + [1]) then 1 else 0;
      var child := if b == 1 then r else l;
      assert c == CodeTable(child, path + [b])[v];
      CodeTablePaths(child, path + [b], v);
      assert c[..|path| + 1] == path + [b];
      assert c[..|path|] == c[..|path| + 1][..|path|];
      assert (path + [b])[|path|] == b;
      assert c[|path|] == c[..|path| + 1][|path|];
      var tail := c[|path|..];
      assert tail[0] == c[|path|] && tail[1..] == c[|path| + 1..];
      assert ReachesLeaf(child, tail[1..], v);
  }

  /** Two leaf paths one of which extends the other are the same path. */
  lemma {:induction false} PathsDiverge(t: Node, a: seq<bit>, b: seq<bit>, v: Value, w: Value)
    requires ReachesLeaf(t, a, v) && ReachesLeaf(t, b, w) && a <= b
    ensures a == b && v == w
    decreases |a|
  {
    if a != [] {
      var child := if a[0] == 0 then t.left else t.right;
      assert a[1..] <= b[1..];
      PathsDiverge(child, a[1..], b[1..], v, w);
    }
  }

  /** The code table of a tree is prefix-free. */
  lemma CodeTablePrefixFree(t: Node)
    ensures PrefixFree(CodeTable(t, []))
  {
    var codes := CodeTable(t, []);
    forall v, w | v in codes && w in codes && v != w
      ensures !(codes[v] <= codes[w])
    {
      CodeTablePaths(t, [], v);
      CodeTablePaths(t, [], w);
      assert codes[v][0..] == codes[v];
      assert codes[w][0..] == codes[w];
      if codes[v] <= codes[w] {
        PathsDiverge(t, codes[v], codes[w], v, w);
      }
    }
  }

  /** Codes depend on the shape and values only, not on frequencies. */
  lemma {:induction false} CodeTableErase(t: Node, path: seq<bit>)
    ensures CodeTable(Erase(t), path) == CodeTable(t, path)
  {
    if t.Internal? {
      CodeTableErase(t.left, path + [0]);
      CodeTableErase(t.right, path + [1]);
    }
  }

  // ---------------------------------------------------------------------
  // Tree serialisation (writeTree / readTree)

  /** Pre-order: a leaf is 0 then its value in 9 bits; an internal node is 1,
      then its left subtree, then its right subtree. */
  function WriteTree(t: Node): (r: seq<bit>)
    ensures |r| >= 10 && (r[0] == 1 <==> t.Internal?)
  {
    match t
    case Leaf(v, _) => [0] + ToBits(v, 9)
    case Internal(l, r, _) => [1] + WriteTree(l) + WriteTree(r)
  }

  lemma {:induction false} WriteTreeLength(t: Node)
    ensures |WriteTree(t)| == 10 * LeafCount(t) + InternalCount(t)
  {
    if t.Internal? {
      WriteTreeLength(t.left);
      WriteTreeLength(t.right);
    }
  }

  /** Parses one tree off the front of `s`, returning it with the bits that
      follow it; fails when the bits run out before the tree is complete. */
  function ReadTree(s: seq<bit>): (r: Option<(Node, seq<bit>)>)
    ensures r.Some? ==> |r.value.1| + 10 <= |s| && r.value.1 == s[|s| - |r.value.1|..]
    decreases |s|
  {
    if s == [] then None
    else if s[0] == 0 then
      match ReadBits(s[1..], 9)
      case None => None
      case Some((v, rest)) =>
        Pow2Nine();
        SuffixOfSuffix(s, s[1..], rest);
        Some((Leaf(v, 0), rest))
    else
      match ReadTree(s[1..])
      case None => None
      case Some((l, rest1)) =>
        match ReadTree(rest1)
        case None => None
        case Some((r, rest2)) =>
          SuffixOfSuffix(s, rest1, rest2);
          Some((Internal(l, r, 0), rest2))
  }

  /** A suffix of a suffix of `s` is a suffix of `s`. */
  lemma SuffixOfSuffix(s: seq<bit>, a: seq<bit>, b: seq<bit>)
    requires |a| <= |s| && a == s[|s| - |a|..]
    requires |b| <= |a| && b == a[|a| - |b|..]
    ensures b == s[|s| - |b|..]
  {
  }

  /** Reading a written tree gives it back with frequencies erased, and
      leaves what follows it unread. */
  lemma {:induction false} TreeRoundTrip(t: Node, rest: seq<bit>)
    ensures ReadTree(WriteTree(t) + rest) == Some((Erase(t), rest))
  {
    var s := WriteTree(t) + rest;
    match t
    case Leaf(v, _) =>
      assert s[1..] == ToBits(v, 9) + rest;
      assert Pow2(9) == 512;
      ReadWrittenBits(v, 9, rest);
    case Internal(l, r, _) =>
      assert s[1..] == WriteTree(l) + (WriteTree(r) + rest);
      TreeRoundTrip(l, WriteTree(r) + rest);
      TreeRoundTrip(r, rest);
  }

  /** Every proper prefix of a written tree is rejected as truncated. */
  lemma {:induction false} TruncatedTreeFails(t: Node, k: nat)
    requires k < |WriteTree(t)|
    ensures ReadTree(WriteTree(t)[..k]) == None
  {
    var s := WriteTree(t)[..k];
    if k > 0 {
      match t
      case Leaf(v, _) =>
        assert |s[1..]| < 9;
      case Internal(l, r, _) =>
        var wl, wr := WriteTree(l), WriteTree(r);
        if k - 1 < |wl| {
          assert s[1..] == wl[..k - 1];
          TruncatedTreeFails(l, k - 1);
        } else {
          var j := k - 1 - |wl|;
          assert s[1..] == wl + wr[..j];
          TreeRoundTrip(l, wr[..j]);
          TruncatedTreeFails(r, j);
        }
    }
  }

  // ---------------------------------------------------------------------
  // The priority queue of the builder

  /** The leaf values of a queue of trees, front to back. */
  function ForestValues(q: seq<Node>): seq<Value>
  {
    if q == [] then [] else ForestValues(q[..|q| - 1]) + LeafValues(q[|q| - 1])
  }

  /** The sum of the frequencies of a queue of trees. */
  function QueueWeight(q: seq<Node>): int
  {
    if q == [] then 0 else QueueWeight(q[..|q| - 1]) + q[|q| - 1].freq
  }

  lemma {:induction false} ForestConcat(a: seq<Node>, b: seq<Node>)
    ensures ForestValues(a + b) == ForestValues(a) + ForestValues(b)
    ensures QueueWeight(a + b) == QueueWeight(a) + QueueWeight(b)
    decreases |b|
  {
    if b == [] {
      assert a + b == a;
    } else {
      assert (a + b)[..|a + b| - 1] == a + b[..|b| - 1];
      ForestConcat(a, b[..|b| - 1]);
    }
  }

  /** `poll()`: the position of the node to remove, one of least frequency;
      among equal frequencies the one queued first. */
  function MinIndex(q: seq<Node>): (i: nat)
    requires |q| > 0
    ensures i < |q|
    ensures forall j :: 0 <= j < |q| ==> q[i].freq <= q[j].freq
    ensures forall j :: 0 <= j < i ==> q[j].freq > q[i].freq
  {
    if |q| == 1 then 0
    else
      var k := MinIndex(q[..|q| - 1]);
      if q[|q| - 1].freq < q[k].freq then |q| - 1 else k
  }

  /** Removing a node from the queue moves its leaves out of the forest and
      its frequency out of the queue's weight. */
  lemma RemoveAt(q: seq<Node>, i: nat)
    requires i < |q|
    ensures multiset(ForestValues(q)) ==
            multiset(ForestValues(q[..i] + q[i + 1..])) + multiset(LeafValues(q[i]))
    ensures QueueWeight(q) == QueueWeight(q[..i] + q[i + 1..]) + q[i].freq
  {
    var a, b := q[..i], q[i + 1..];
    SplitAt(q, i);
    ForestConcat(a, [q[i]] + b);
    ForestConcat([q[i]], b);
    ForestConcat(a, b);
    ForestSingle(q[i]);
  }

  lemma SplitAt(q: seq<Node>, i: nat)
    requires i < |q|
    ensures q == q[..i] + ([q[i]] + q[i + 1..])
  {
    assert q[i..] == [q[i]] + q[i + 1..];
    assert q == q[..i] + q[i..];
  }

  lemma ForestSingle(n: Node)
    ensures ForestValues([n]) == LeafValues(n) && QueueWeight([n]) == n.freq
  {
    assert [n][..0] == [];
  }

  /** What is left after a removal is part of the queue. */
  lemma RemoveAtMembers(q: seq<Node>, i: nat, all: map<Value, int>)
    requires i < |q|
    ensures forall n :: n in q[..i] + q[i + 1..] ==> n in q
    ensures GoodQueue(q, all) ==> GoodQueue(q[..i] + q[i + 1..], all) && WellFormed(q[i]) && LeavesCarry(q[i], all)
  {
    forall n | n in q[..i] + q[i + 1..] ensures n in q {
      if n in q[..i] {
        var k :| 0 <= k < i && q[..i][k] == n;
        assert q[k] == n;
      } else {
        var k :| 0 <= k < |q| - i - 1 && q[i + 1..][k] == n;
        assert q[i + 1 + k] == n;
      }
    }
  }

  /** The sum of the frequencies of the keys below `n`. */
  function SumFreqs(m: map<Value, int>, n: nat): int
    requires n <= 512
  {
    if n == 0 then 0 else SumFreqs(m, n - 1) + (if n - 1 in m then m[n - 1] else 0)
  }

  /** A tree whose leaves are each key of `all` exactly once is a single leaf
      exactly when the end-of-stream symbol is the only key. */
  lemma LeafRootIff(root: Node, all: map<Value, int>)
    requires EOF in all
    requires forall v: Value :: multiset(LeafValues(root))[v] == if v in all then 1 else 0
    ensures root.Leaf? <==> all.Keys == {EOF}
  {
    if root.Leaf? {
      forall v | v in all ensures v == EOF {
        assert multiset(LeafValues(root))[v] == 1;
      }
      assert multiset(LeafValues(root))[EOF] == 1;
    } else {
      var ls, rs := LeafValues(root.left), LeafValues(root.right);
      var a, b := ls[0], rs[0];
      assert LeafValues(root) == ls + rs;
      assert multiset(ls)[a] >= 1 && multiset(rs)[b] >= 1;
      assert a in all && b in all;
      assert a != b;
    }
  }

  /** Every tree in the queue is well formed and carries its leaves' map
      frequencies. */
  ghost predicate GoodQueue(q: seq<Node>, all: map<Value, int>)
  {
    forall n :: n in q ==> WellFormed(n) && LeavesCarry(n, all)
  }

  /** The keys of `all` below `n`, each once. */
  ghost function KeysBelow(all: map<Value, int>, n: nat): multiset<Value>
    requires n <= 512
  {
    if n == 0 then multiset{}
    else KeysBelow(all, n - 1) + if n - 1 in all then multiset{n - 1} else multiset{}
  }

  lemma {:induction false} KeysBelowCount(all: map<Value, int>, n: nat, w: Value)
    requires n <= 512
    ensures KeysBelow(all, n)[w] == if w < n && w in all then 1 else 0
  {
    if n > 0 {
      KeysBelowCount(all, n - 1, w);
    }
  }

  /** Adding a tree at the back of the queue adds its leaves and frequency. */
  lemma Enqueue(q: seq<Node>, n: Node, all: map<Value, int>)
    ensures ForestValues(q + [n]) == ForestValues(q) + LeafValues(n)
    ensures QueueWeight(q + [n]) == QueueWeight(q) + n.freq
    ensures GoodQueue(q, all) && WellFormed(n) && LeavesCarry(n, all) ==> GoodQueue(q + [n], all)
  {
    assert (q + [n])[..|q|] == q;
  }

  /** Every node of the queue is a leaf. */
  predicate AllLeaves(q: seq<Node>)
  {
    forall n :: n in q ==> n.Leaf?
  }

  /** Queueing a leaf behind leaves leaves only leaves in the queue. */
  lemma EnqueueLeaf(q: seq<Node>, n: Node)
    requires AllLeaves(q) && n.Leaf?
    ensures AllLeaves(q + [n])
  {
  }

  /** One leaf per key, queued in ascending key order (the order of the
      sorted key set). */
  method InitialQueue(all: map<Value, int>) returns (queue: seq<Node>)
    ensures GoodQueue(queue, all)
    ensures AllLeaves(queue)
    ensures multiset(ForestValues(queue)) == KeysBelow(all, 512)
    ensures QueueWeight(queue) == SumFreqs(all, 512)
  {
    queue := [];
    for v := 0 to 512
      invariant GoodQueue(queue, all)
      invariant AllLeaves(queue)
      invariant multiset(ForestValues(queue)) == KeysBelow(all, v)
      invariant QueueWeight(queue) == SumFreqs(all, v)
    {
      if v in all {
        var leaf := Leaf(v, all[v]);
        Enqueue(queue, leaf, all);
        EnqueueLeaf(queue, leaf);
        queue := queue + [leaf];
      }
    }
  }

  /** `poll()`: removes the first least frequent node of the queue. */
  method Poll(queue: seq<Node>, ghost all: map<Value, int>) returns (min: Node, rest: seq<Node>)
    requires |queue| > 0 && GoodQueue(queue, all)
    ensures |rest| == |queue| - 1 && min in queue
    ensures multiset(rest) + multiset{min} == multiset(queue)
    ensures WellFormed(min) && LeavesCarry(min, all) && GoodQueue(rest, all)
    ensures forall n :: n in rest ==> min.freq <= n.freq
    ensures multiset(ForestValues(queue)) == multiset(ForestValues(rest)) + multiset(LeafValues(min))
    ensures QueueWeight(queue) == QueueWeight(rest) + min.freq
  {
    var i := MinIndex(queue);
    min := queue[i];
    RemoveAt(queue, i);
    RemoveAtMembers(queue, i, all);
    rest := queue[..i] + queue[i + 1..];
    assert multiset(rest) + multiset{min} == multiset(queue) by {
      SplitAt(queue, i);
    }
    forall n | n in rest ensures min.freq <= n.freq {
      assert n in queue;
      var k :| 0 <= k < |queue| && queue[k] == n;
    }
  }

  /** The two `poll()` calls of one merge step: the least frequent node, then
      the least frequent of the rest. */
  method PollTwo(queue: seq<Node>, ghost all: map<Value, int>) returns (left: Node, right: Node, rest: seq<Node>)
    requires |queue| > 1 && GoodQueue(queue, all)
    ensures |rest| == |queue| - 2
    ensures multiset(rest) + multiset{left, right} == multiset(queue)
    ensures left.freq <= right.freq && forall n :: n in rest ==> right.freq <= n.freq
    ensures WellFormed(left) && LeavesCarry(left, all) && WellFormed(right) && LeavesCarry(right, all)
    ensures GoodQueue(rest, all)
    ensures multiset(ForestValues(queue)) ==
            multiset(ForestValues(rest)) + multiset(LeafValues(left)) + multiset(LeafValues(right))
    ensures QueueWeight(queue) == QueueWeight(rest) + left.freq + right.freq
  {
    var rest1;
    left, rest1 := Poll(queue, all);
    right, rest := Poll(rest1, all);
    TwoRemoved(queue, rest1, rest, left, right);
  }

  /** One merge step: polls the two least frequent nodes and queues a parent
      over them whose frequency is the sum of theirs. */
  method MergeMinima(queue: seq<Node>, ghost all: map<Value, int>) returns (next: seq<Node>)
    requires |queue| > 1 && GoodQueue(queue, all)
    ensures |next| == |queue| - 1
    ensures GoodQueue(next, all)
    ensures multiset(ForestValues(next)) == multiset(ForestValues(queue))
    ensures QueueWeight(next) == QueueWeight(queue)
    ensures var p := next[|next| - 1];
      p.Internal? && p.left.freq <= p.right.freq &&
      forall n :: n in next[..|next| - 1] ==> p.right.freq <= n.freq
    ensures var p := next[|next| - 1];
      multiset(next[..|next| - 1]) + multiset{p.left, p.right} == multiset(queue)
  {
    var left, right, rest := PollTwo(queue, all);
    var parent := Internal(left, right, left.freq + right.freq);
    next := rest + [parent];
    Enqueue(rest, parent, all);
    assert multiset(LeafValues(parent)) == multiset(LeafValues(left)) + multiset(LeafValues(right));
    assert next[..|next| - 1] == rest;
  }

  /** Two removals in a row take both removed nodes out of the queue. */
  lemma TwoRemoved(queue: seq<Node>, rest: seq<Node>, rest2: seq<Node>, left: Node, right: Node)
    requires multiset(rest) + multiset{left} == multiset(queue)
    requires multiset(rest2) + multiset{right} == multiset(rest)
    ensures multiset(rest2) + multiset{left, right} == multiset(queue)
  {
  }

  /** The construction of the frequency-map constructor: one leaf per key of
      the map with EOF forced to frequency 1, then merges of the two least
      frequent nodes until one node is left. */
  method BuildTree(freqs: map<Value, int>) returns (root: Node)
    ensures forall v: Value ::
      multiset(LeafValues(root))[v] == if v in freqs || v == EOF then 1 else 0
    ensures LeavesCarry(root, freqs[EOF := 1])
    ensures WellFormed(root)
    ensures root.freq == SumFreqs(freqs[EOF := 1], 512)
    ensures root.Leaf? <==> freqs.Keys <= {EOF}
  {
    var all := freqs[EOF := 1];
    var initial := InitialQueue(all);
    KeysBelowCount(all, 512, EOF);
    var queue := MergeAll(initial, all);
    root := queue[0];
    BuiltRoot(freqs, queue);
  }

  /** The tree left by the merge loop over the initial queue of
      `freqs[EOF := 1]` is the tree `BuildTree` promises. */
  lemma BuiltRoot(freqs: map<Value, int>, queue: seq<Node>)
    requires |queue| == 1 && GoodQueue(queue, freqs[EOF := 1])
    requires multiset(ForestValues(queue)) == KeysBelow(freqs[EOF := 1], 512)
    requires QueueWeight(queue) == SumFreqs(freqs[EOF := 1], 512)
    ensures forall v: Value ::
      multiset(LeafValues(queue[0]))[v] == if v in freqs || v == EOF then 1 else 0
    ensures LeavesCarry(queue[0], freqs[EOF := 1])
    ensures WellFormed(queue[0])
    ensures queue[0].freq == SumFreqs(freqs[EOF := 1], 512)
    ensures queue[0].Leaf? <==> freqs.Keys <= {EOF}
  {
    var all := freqs[EOF := 1];
    KeysBelowCount(all, 512, EOF);
    LastInQueue(queue, all);
    assert all.Keys == {EOF} <==> freqs.Keys <= {EOF};
  }

  /** The merge loop: merges until a single tree is left, keeping the queue's
      leaves and total weight. */
  method MergeAll(queue: seq<Node>, ghost all: map<Value, int>) returns (last: seq<Node>)
    requires |queue| >= 1 && GoodQueue(queue, all)
    ensures |last| == 1 && GoodQueue(last, all)
    ensures multiset(ForestValues(last)) == multiset(ForestValues(queue))
    ensures QueueWeight(last) == QueueWeight(queue)
  {
    last := queue;
    while |last| > 1
      invariant |last| >= 1
      invariant GoodQueue(last, all)
      invariant multiset(ForestValues(last)) == multiset(ForestValues(queue))
      invariant QueueWeight(last) == QueueWeight(queue)
      decreases |last|
    {
      last := MergeMinima(last, all);
    }
  }

  /** When one tree is left in the queue it holds every key once, with its
      frequency, and its root frequency is the total. */
  lemma LastInQueue(queue: seq<Node>, all: map<Value, int>)
    requires |queue| == 1 && EOF in all && GoodQueue(queue, all)
    requires multiset(ForestValues(queue)) == KeysBelow(all, 512)
    requires QueueWeight(queue) == SumFreqs(all, 512)
    ensures forall v: Value :: multiset(LeafValues(queue[0]))[v] == if v in all then 1 else 0
    ensures WellFormed(queue[0]) && LeavesCarry(queue[0], all)
    ensures queue[0].freq == SumFreqs(all, 512)
    ensures queue[0].Leaf? <==> all.Keys == {EOF}
  {
    var root := queue[0];
    assert queue == [root];
    Enqueue([], root, all);
    assert root in queue;
    forall v: Value
      ensures multiset(LeafValues(root))[v] == if v in all then 1 else 0
    {
      KeysBelowCount(all, 512, v);
    }
    LeafRootIff(root, all);
  }

  // ---------------------------------------------------------------------
  // Payload encoding and decoding

  /** The codes of the bytes of `data`, one after another, in input order. */
  function Codewords(codes: map<Value, seq<bit>>, data: seq<byte>): (r: seq<bit>)
    requires forall i :: 0 <= i < |data| ==> data[i] in codes
    ensures (forall v :: v in codes ==> codes[v] != []) ==> |data| <= |r|
  {
    if data == [] then [] else Codewords(codes, data[..|data| - 1]) + codes[data[|data| - 1]]
  }

  lemma {:induction false} CodewordsCons(codes: map<Value, seq<bit>>, x: byte, data: seq<byte>)
    requires x in codes && forall i :: 0 <= i < |data| ==> data[i] in codes
    ensures Codewords(codes, [x] + data) == codes[x] + Codewords(codes, data)
    decreases |data|
  {
    if data != [] {
      var init, last := data[..|data| - 1], data[|data| - 1];
      var xs := [x] + data;
      assert xs[..|data|] == [x] + init && xs[|data|] == last;
      CodewordsCons(codes, x, init);
      var w: seq<bit> := Codewords(codes, init);
      assert Codewords(codes, data) == w + codes[last];
      assert Codewords(codes, xs) == (codes[x] + w) + codes[last];
      assert (codes[x] + w) + codes[last] == codes[x] + (w + codes[last]);
    } else {
      assert [x] + data == [x] && [x][..0] == [];
    }
  }

  /** `t` has an end-of-stream leaf and a leaf for every byte of `data`. */
  ghost predicate Covers(t: Node, data: seq<byte>)
  {
    EOF in LeafValues(t) && forall i :: 0 <= i < |data| ==> data[i] in LeafValues(t)
  }

  /** The payload `encode` writes: the code of each byte, then the code of EOF. */
  function Payload(t: Node, data: seq<byte>): (r: seq<bit>)
    requires Covers(t, data)
    ensures t.Leaf? ==> data == [] && r == []
    ensures t.Internal? ==> |data| < |r|
  {
    var codes := CodeTable(t, []);
    CodeTableKeys(t, []);
    Codewords(codes, data) + codes[EOF]
  }

  /** The decoder's state machine from `node` on: each bit moves to a child;
      at the EOF leaf it stops, at another leaf it emits the value's low 8
      bits and restarts at the root; it stops when the bits run out. */
  function Walk(root: Node, node: Node, bits: seq<bit>): (out: seq<byte>)
    requires root.Internal? && node.Internal?
    ensures |out| <= |bits|
    decreases |bits|
  {
    if bits == [] then []
    else
      var next := if bits[0] == 0 then node.left else node.right;
      if next.Internal? then Walk(root, next, bits[1..])
      else if next.value == EOF then []
      else [next.value % 256] + Walk(root, root, bits[1..])
  }

  /** Decoding as the loop is written: with a single-leaf tree the first bit
      read sends the decoder to a child that does not exist (None). */
  function DecodedAsWritten(root: Node, bits: seq<bit>): (r: Option<seq<byte>>)
    ensures r.None? <==> root.Leaf? && bits != []
    ensures r.Some? ==> |r.value| <= |bits|
  {
    if root.Internal? then Some(Walk(root, root, bits))
    else if bits == [] then Some([])
    else None
  }

  /** Decoding with a single-leaf tree corrected: that leaf is the EOF leaf
      reached by the empty code, so nothing is read or emitted. */
  function Decoded(root: Node, bits: seq<bit>): (r: seq<byte>)
    ensures |r| <= |bits|
    ensures root.Leaf? ==> r == []
  {
    if root.Leaf? then [] else Walk(root, root, bits)
  }

  /** The two decoders differ only where the as-written one fails. */
  lemma DecodedAgrees(root: Node, bits: seq<bit>)
    ensures DecodedAsWritten(root, bits).Some? ==> DecodedAsWritten(root, bits).value == Decoded(root, bits)
    ensures DecodedAsWritten(root, bits).None? <==> root.Leaf? && bits != []
  {
  }

  /** The tree the builder makes for empty input, read back from the file,
      fails on the six zero bits that pad the 42-bit file to a whole byte. */
  lemma LeafRootFailsAsWritten()
    ensures DecodedAsWritten(Leaf(EOF, 0), [0, 0, 0, 0, 0, 0]) == None
    ensures Decoded(Leaf(EOF, 0), [0, 0, 0, 0, 0, 0]) == []
  {
  }

  /** Walking a leaf's path consumes exactly that path, then emits the leaf
      and restarts at the root, or stops there if it is the EOF leaf. */
  lemma {:induction false} WalkCode(root: Node, node: Node, path: seq<bit>, v: Value, rest: seq<bit>)
    requires root.Internal? && node.Internal? && ReachesLeaf(node, path, v)
    ensures Walk(root, node, path + rest) ==
            if v == EOF then [] else [v % 256] + Walk(root, root, rest)
    decreases |path|
  {
    var next := if path[0] == 0 then node.left else node.right;
    assert (path + rest)[0] == path[0];
    assert (path + rest)[1..] == path[1..] + rest;
    if next.Internal? {
      WalkCode(root, next, path[1..], v, rest);
    } else {
      assert path[1..] == [];
    }
  }

  /** The EOF code read from the root stops the decoder without output. */
  lemma WalkEOF(t: Node, rest: seq<bit>)
    requires t.Internal? && EOF in LeafValues(t)
    ensures EOF in CodeTable(t, []) && Walk(t, t, CodeTable(t, [])[EOF] + rest) == []
  {
    var codes := CodeTable(t, []);
    CodeTableKeys(t, []);
    CodeTablePaths(t, [], EOF);
    assert codes[EOF][0..] == codes[EOF];
    WalkCode(t, t, codes[EOF], EOF, rest);
  }

  /** A byte's code read from the root emits that byte and returns to the
      root. */
  lemma WalkByte(t: Node, x: byte, rest: seq<bit>)
    requires t.Internal? && x in LeafValues(t)
    ensures x in CodeTable(t, []) && Walk(t, t, CodeTable(t, [])[x] + rest) == [x] + Walk(t, t, rest)
  {
    var codes := CodeTable(t, []);
    CodeTableKeys(t, []);
    CodeTablePaths(t, [], x);
    assert codes[x][0..] == codes[x];
    assert x != EOF && x % 256 == x;
    WalkCode(t, t, codes[x], x, rest);
  }

  /** The payload of a non-empty input starts with the code of its first byte. */
  lemma PayloadCons(t: Node, x: byte, tail: seq<byte>)
    requires Covers(t, [x] + tail)
    ensures Covers(t, tail) && x in CodeTable(t, [])
    ensures Payload(t, [x] + tail) == CodeTable(t, [])[x] + Payload(t, tail)
  {
    var codes := CodeTable(t, []);
    CoversTail(t, x, tail);
    CodeTableKeys(t, []);
    CodewordsCons(codes, x, tail);
    var w: seq<bit> := Codewords(codes, tail);
    assert (codes[x] + w) + codes[EOF] == codes[x] + (w + codes[EOF]);
  }

  lemma CoversTail(t: Node, x: byte, tail: seq<byte>)
    requires Covers(t, [x] + tail)
    ensures Covers(t, tail) && x in LeafValues(t)
  {
    assert ([x] + tail)[0] == x;
    forall i | 0 <= i < |tail| ensures tail[i] in LeafValues(t) {
      assert tail[i] == ([x] + tail)[i + 1];
    }
  }

  lemma {:induction false} WalkRoundTrip(t: Node, data: seq<byte>, padding: seq<bit>)
    requires t.Internal? && Covers(t, data)
    ensures Walk(t, t, Payload(t, data) + padding) == data
    decreases |data|
  {
    if data == [] {
      WalkEOF(t, padding);
      assert Payload(t, data) == CodeTable(t, [])[EOF];
    } else {
      var x, tail := data[0], data[1..];
      assert data == [x] + tail;
      PayloadCons(t, x, tail);
      var after := Payload(t, tail) + padding;
      assert Payload(t, data) + padding == CodeTable(t, [])[x] + after;
      WalkByte(t, x, after);
      WalkRoundTrip(t, tail, padding);
    }
  }

  /** Decoding an encoded payload gives back the input, whatever bits follow
      the end-of-stream code. */
  lemma PayloadRoundTrip(t: Node, data: seq<byte>, padding: seq<bit>)
    requires Covers(t, data)
    ensures Decoded(t, Payload(t, data) + padding) == data
  {
    if t.Internal? {
      WalkRoundTrip(t, data, padding);
    }
  }

  // ---------------------------------------------------------------------
  // The coding session object

  /** Writes the bits of one code to the output, one at a time. */
  method WriteCode(out: seq<bit>, code: seq<bit>) returns (r: seq<bit>)
    ensures r == out + code
  {
    r := out;
    for j := 0 to |code|
      invariant r == out + code[..j]
    {
      r := r + [code[j]];
    }
    assert code[..|code|] == code;
  }

  class HuffmanTree {
    var root: Node
    var codes: map<Value, seq<bit>>

    /** The code table is the one derived from the tree. */
    ghost predicate Valid()
      reads this
    {
      codes == CodeTable(root, [])
    }

    /** Builds the tree of a frequency map, with EOF added at frequency 1,
        and its code table. */
    constructor (freqs: map<Value, int>)
      ensures Valid()
      ensures forall v: Value ::
        multiset(LeafValues(root))[v] == if v in freqs || v == EOF then 1 else 0
      ensures LeavesCarry(root, freqs[EOF := 1]) && WellFormed(root)
      ensures root.freq == SumFreqs(freqs[EOF := 1], 512)
      ensures root.Leaf? <==> freqs.Keys <= {EOF}
    {
      var t := BuildTree(freqs);
      root := t;
      codes := map[];
      new;
      GenerateCodes(root, []);
      assert root == t;
      assert codes == CodeTable(t, []) by {
        assert codes.Keys == CodeTable(t, []).Keys;
      }
    }

    /** The stream constructor, given the tree `readTree` parsed. */
    constructor FromRoot(t: Node)
      ensures root == t && Valid()
    {
      root := t;
      codes := map[];
      new;
      GenerateCodes(root, []);
    }

    /** Adds the codes of the leaves below `node`, reached by `code`. */
    method GenerateCodes(node: Node, code: seq<bit>)
      modifies this
      ensures root == old(root)
      ensures codes == old(codes) + CodeTable(node, code)
      decreases node
    {
      match node
      case Leaf(v, _) =>
        codes := codes[v := code];
      case Internal(l, r, _) =>
        GenerateCodes(l, code + [0]);
        GenerateCodes(r, code + [1]);
        assert codes == old(codes) + CodeTable(l, code + [0]) + CodeTable(r, code + [1]);
    }

    /** Writes the tree in pre-order; reading it back yields the same tree. */
    method Serialize() returns (bits: seq<bit>)
      ensures bits == WriteTree(root)
      ensures |bits| == 10 * LeafCount(root) + InternalCount(root)
      ensures ReadTree(bits) == Some((Erase(root), []))
    {
      bits := WriteTree(root);
      WriteTreeLength(root);
      TreeRoundTrip(root, []);
      assert bits + [] == bits;
    }

    /** Emits the code of each input byte, then the code of EOF; fails when a
        needed code is missing from the table. */
    method Encode(input: seq<byte>) returns (out: Option<seq<bit>>)
      ensures out.Some? <==> EOF in codes && forall i :: 0 <= i < |input| ==> input[i] in codes
      ensures out.Some? ==> out.value == Codewords(codes, input) + codes[EOF]
    {
      var bits: seq<bit> := [];
      var i := 0;
      while i < |input|
        invariant 0 <= i <= |input|
        invariant forall k :: 0 <= k < i ==> input[k] in codes
        invariant bits == Codewords(codes, input[..i])
      {
        var b := input[i];
        if b !in codes {
          return None;
        }
        bits := WriteCode(bits, codes[b]);
        assert input[..i + 1][..i] == input[..i];
        i := i + 1;
      }
      if EOF !in codes {
        return None;
      }
      bits := WriteCode(bits, codes[EOF]);
      assert input[..i] == input;
      out := Some(bits);
    }

    /** Walks the tree bit by bit from the root, emitting each non-EOF leaf
        reached and stopping at the EOF leaf or when the bits run out. */
    method Decode(input: seq<bit>) returns (out: seq<byte>)
      ensures out == Decoded(root, input)
    {
      out := [];
      var top := root;
      if top.Leaf? {
        return;
      }
      var node := top;
      var i := 0;
      while i < |input|
        invariant 0 <= i <= |input|
        invariant node.Internal?
        invariant out + Walk(top, node, input[i..]) == Walk(top, top, input)
      {
        var bit := input[i];
        var next := if bit == 0 then node.left else node.right;
        assert input[i..][1..] == input[i + 1..];
        ghost var before := Walk(top, node, input[i..]);
        i := i + 1;
        node := next;
        if node.Leaf? {
          if node.value == EOF {
            assert before == [];
            break;
          }
          var b := node.value % 256;
          assert before == [b] + Walk(top, top, input[i..]);
          assert (out + [b]) + Walk(top, top, input[i..]) == out + before;
          out := out + [b];
          node := top;
        } else {
          assert before == Walk(top, node, input[i..]);
        }
      }
    }
  }
}
