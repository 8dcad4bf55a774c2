/**
 The reassembler itself: one merge pass over a sorted list of substrings, updated in place
 (stream_reassembler.{hh,cc}).
 */
module StreamReassemblers {
  import opened Types
  import S = StreamModel
  import M = ReassemblyModel
  import opened ByteStreams

  /** `_list_node`: the bytes of stream indices `beg` to `end`, both included; `end == beg - 1` when empty. */
  datatype Node = Node(s: seq<byte>, beg: nat, end: int)

  ghost predicate In(n: Node, k: nat) { n.beg <= k <= n.end }

  ghost predicate Has(list: seq<Node>, k: nat) { exists i :: 0 <= i < |list| && In(list[i], k) }

  /** Nodes are consistent, beyond the delivered bytes, in order, and never overlap or touch. */
  ghost predicate Sorted(list: seq<Node>, cur: nat) {
    && (forall i | 0 <= i < |list| :: cur < list[i].beg && list[i].end == list[i].beg + |list[i].s| - 1)
    && (forall i, j | 0 <= i < j < |list| :: list[i].end + 1 < list[j].beg)
  }

  /** The node's byte for index `k` is the map's. */
  ghost predicate Stores(n: Node, m: map<nat, byte>, k: nat) {
    k in m && n.beg <= k < n.beg + |n.s| && m[k] == n.s[k - n.beg]
  }

  ghost predicate Agrees(list: seq<Node>, m: map<nat, byte>) {
    forall i, k: nat | 0 <= i < |list| && In(list[i], k) :: Stores(list[i], m, k)
  }

  /** The list stores exactly the bytes of the map. */
  ghost predicate Represents(list: seq<Node>, m: map<nat, byte>) {
    Agrees(list, m) && forall k <- m :: Has(list, k)
  }

  /** The node neither overlaps nor touches the interval from `left` to `right`. */
  predicate Irrelevant(n: Node, left: nat, right: int) {
    n.end + 1 < left || n.beg > right + 1
  }

  predicate Contains(n: Node, left: nat, right: int) {
    n.beg <= left && n.end >= right
  }

  lemma HasConcat(a: seq<Node>, b: seq<Node>, k: nat)
    ensures Has(a + b, k) <==> Has(a, k) || Has(b, k)
  {
    if Has(a, k) {
      var i :| 0 <= i < |a| && In(a[i], k);
      assert In((a + b)[i], k);
    }
    if Has(b, k) {
      var i :| 0 <= i < |b| && In(b[i], k);
      assert In((a + b)[|a| + i], k);
    }
  }

  /** A block of stored indices lies inside one node, because nodes never touch. */
  lemma {:induction false} OneNodeContains(list: seq<Node>, cur: nat, left: nat, right: nat)
    requires Sorted(list, cur) && left <= right
    requires forall k | left <= k <= right :: Has(list, k)
    ensures exists i :: 0 <= i < |list| && Contains(list[i], left, right)
  {
    assert Has(list, left);
    var i :| 0 <= i < |list| && In(list[i], left);
    assert list[i].end < right ==> Has(list, list[i].end + 1);
  }

  /**
   What the merge pass knows half-way: nodes already seen are clear of the block (`done`) or went into it
   (`data` at `left`), and with the nodes still to see (`todo`) they hold every index of the target.
   */
  ghost predicate Merged(done: seq<Node>, todo: seq<Node>, left: nat, data: seq<byte>, target: map<nat, byte>) {
    && (forall i | 0 <= i < |done| :: Irrelevant(done[i], left, left + |data| - 1))
    && (forall k | left <= k < left + |data| :: k in target && target[k] == M.ByteAt(left, data, k))
    && (forall k <- target :: left <= k < left + |data| || Has(done, k) || Has(todo, k))
  }

  /** Outside the block, the node's bytes are the target's. */
  ghost predicate StoresRest(n: Node, left: nat, data: seq<byte>, target: map<nat, byte>) {
    forall k: nat | In(n, k) && !(left <= k < left + |data|) :: Stores(n, target, k)
  }

  lemma MergedSkip(done: seq<Node>, n: Node, todo: seq<Node>, left: nat, data: seq<byte>, target: map<nat, byte>)
    requires Merged(done, [n] + todo, left, data, target) && Irrelevant(n, left, left + |data| - 1)
    ensures Merged(done + [n], todo, left, data, target)
  {
    forall k <- target ensures left <= k < left + |data| || Has(done + [n], k) || Has(todo, k) {
      HasConcat([n], todo, k);
      HasConcat(done, [n], k);
    }
  }

  /** A larger block that swallows the node and keeps clear of the nodes seen before. */
  lemma MergedAbsorb(done: seq<Node>, n: Node, todo: seq<Node>, left: nat, data: seq<byte>, target: map<nat, byte>,
                     left': nat, data': seq<byte>)
    requires Merged(done, [n] + todo, left, data, target) && StoresRest(n, left, data, target)
    requires forall i | 0 <= i < |done| :: Irrelevant(done[i], left', left' + |data'| - 1)
    requires left' <= left && left + |data| <= left' + |data'|
    requires forall k: nat | In(n, k) :: left' <= k < left' + |data'|
    requires forall k | left' <= k < left' + |data'| ::
               if left <= k < left + |data| then M.ByteAt(left', data', k) == M.ByteAt(left, data, k)
               else In(n, k) && (Stores(n, target, k) ==> M.ByteAt(left', data', k) == n.s[k - n.beg])
    ensures Merged(done, todo, left', data', target)
  {
    forall k <- target ensures left' <= k < left' + |data'| || Has(done, k) || Has(todo, k) {
      HasConcat([n], todo, k);
    }
    forall k | left' <= k < left' + |data'| ensures k in target && target[k] == M.ByteAt(left', data', k) {
      if !(left <= k < left + |data|) { assert Stores(n, target, k); }
    }
  }

  lemma AbsorbInside(done: seq<Node>, n: Node, todo: seq<Node>, left: nat, data: seq<byte>, target: map<nat, byte>)
    requires Merged(done, [n] + todo, left, data, target) && StoresRest(n, left, data, target)
    requires n.end <= left + |data| - 1 && n.beg >= left
    ensures Merged(done, todo, left, data, target)
  {
    MergedAbsorb(done, n, todo, left, data, target, left, data);
  }

  lemma AbsorbLeft(done: seq<Node>, n: Node, todo: seq<Node>, left: nat, data: seq<byte>, target: map<nat, byte>)
    requires Merged(done, [n] + todo, left, data, target) && StoresRest(n, left, data, target)
    requires n.end == n.beg + |n.s| - 1 && n.beg < left <= n.end + 1 <= left + |data| - 1
    requires forall i | 0 <= i < |done| :: done[i].end + 1 < n.beg
    ensures Merged(done, todo, n.beg, n.s[..left - n.beg] + data, target)
  {
    MergedAbsorb(done, n, todo, left, data, target, n.beg, n.s[..left - n.beg] + data);
  }

  lemma AbsorbRight(done: seq<Node>, n: Node, todo: seq<Node>, left: nat, data: seq<byte>, target: map<nat, byte>)
    requires Merged(done, [n] + todo, left, data, target) && StoresRest(n, left, data, target)
    requires n.end == n.beg + |n.s| - 1 && left < n.beg <= left + |data| <= n.end + 1
    requires forall i | 0 <= i < |done| :: done[i].beg <= done[i].end + 1 < n.beg
    ensures Merged(done, todo, left, data + n.s[left + |data| - n.beg..], target)
  {
    forall i | 0 <= i < |done| ensures Irrelevant(done[i], left, n.end) {
      assert Irrelevant(done[i], left, left + |data| - 1);
    }
    MergedAbsorb(done, n, todo, left, data, target, left, data + n.s[left + |data| - n.beg..]);
  }

  /**
   The merge pass between two nodes: node `p` of the original list is next, at position `it` of what is left.
   As soon as a node went into the block, every node to come starts after `left0`.
   */
  ghost predicate Pass(nodes: seq<Node>, p: nat, list: seq<Node>, it: nat, cur: nat, pending: map<nat, byte>,
                       left0: nat, data0: seq<byte>, left: nat, data: seq<byte>)
  {
    && it <= |list| && p <= |nodes| && list[it..] == nodes[p..]
    && Sorted(list, cur) && Agrees(list, pending)
    && cur <= left <= left0 && left0 + |data0| <= left + |data| && (left == cur <==> left0 == cur)
    && Merged(list[..it], list[it..], left, data, pending + M.Piece(left0, data0))
    && ((list == nodes && it == p && left == left0 && data == data0) || forall j | it <= j < |list| :: left0 < list[j].beg)
    && forall j | 0 <= j < p :: Contains(nodes[j], left0, left0 + |data0| - 1) ==> data0 == []
  }

  lemma PassSkip(nodes: seq<Node>, p: nat, list: seq<Node>, it: nat, cur: nat, pending: map<nat, byte>,
                 left0: nat, data0: seq<byte>, left: nat, data: seq<byte>)
    requires Pass(nodes, p, list, it, cur, pending, left0, data0, left, data)
    requires it < |list| && Irrelevant(list[it], left, left + |data| - 1)
    ensures Pass(nodes, p + 1, list, it + 1, cur, pending, left0, data0, left, data)
  {
    assert list[it..] == [list[it]] + list[it + 1..];
    assert list[..it + 1] == list[..it] + [list[it]];
    assert nodes[p..][0] == nodes[p] && nodes[p + 1..] == nodes[p..][1..];
    MergedSkip(list[..it], list[it], list[it + 1..], left, data, pending + M.Piece(left0, data0));
  }

  /** Any node that touches the block without containing it goes into it, on one of three branches. */
  lemma AbsorbNode(nodes: seq<Node>, p: nat, list: seq<Node>, it: nat, cur: nat, pending: map<nat, byte>,
                   left0: nat, data0: seq<byte>, left: nat, data: seq<byte>)
    requires Pass(nodes, p, list, it, cur, pending, left0, data0, left, data) && it < |list|
    requires !Irrelevant(list[it], left, left + |data| - 1) && !Contains(list[it], left, left + |data| - 1)
    ensures list[it].end == list[it].beg + |list[it].s| - 1
    ensures var (n, right) := (list[it], left + |data| - 1);
            var target := pending + M.Piece(left0, data0);
            if n.end <= right && n.beg >= left then
              Merged(list[..it], list[it + 1..], left, data, target)
            else if n.end + 1 >= left && n.end + 1 <= right then
              n.beg < left && Merged(list[..it], list[it + 1..], n.beg, n.s[..left - n.beg] + data, target)
            else
              n.beg >= left + 1 && n.beg <= right + 1 < n.end + 1 &&
              Merged(list[..it], list[it + 1..], left, data + n.s[right + 1 - n.beg..], target)
  {
    var n, target := list[it], pending + M.Piece(left0, data0);
    assert list[it..] == [n] + list[it + 1..];
    assert StoresRest(n, left, data, target);
    if n.end <= left + |data| - 1 && n.beg >= left {
      AbsorbInside(list[..it], n, list[it + 1..], left, data, target);
    } else if n.end + 1 <= left + |data| - 1 {
      AbsorbLeft(list[..it], n, list[it + 1..], left, data, target);
    } else {
      AbsorbRight(list[..it], n, list[it + 1..], left, data, target);
    }
  }

  lemma EraseKeeps(list: seq<Node>, it: nat, cur: nat, m: map<nat, byte>)
    requires Sorted(list, cur) && Agrees(list, m) && it < |list|
    ensures Sorted(list[..it] + list[it + 1..], cur) && Agrees(list[..it] + list[it + 1..], m)
  {
    var rest := list[..it] + list[it + 1..];
    forall i | 0 <= i < |rest| ensures rest[i] == list[if i < it then i else i + 1] {}
  }

  /** After a node that touches the block, later nodes start beyond `left0`, and it did not hold the substring. */
  lemma EraseAfter(nodes: seq<Node>, p: nat, list: seq<Node>, it: nat, cur: nat, pending: map<nat, byte>,
                   left0: nat, data0: seq<byte>, left: nat, data: seq<byte>)
    requires Pass(nodes, p, list, it, cur, pending, left0, data0, left, data) && it < |list|
    requires !Irrelevant(list[it], left, left + |data| - 1) && !Contains(list[it], left, left + |data| - 1)
    ensures forall j | it < j < |list| :: left0 < list[j].beg
    ensures p < |nodes| && nodes[p] == list[it] && nodes[p + 1..] == list[it + 1..]
    ensures Contains(nodes[p], left0, left0 + |data0| - 1) ==> data0 == []
  {
    hide Merged, Agrees;
    assert list[it..][0] == list[it] && nodes[p..][0] == nodes[p];
    assert nodes[p + 1..] == nodes[p..][1..] && list[it + 1..] == list[it..][1..];
  }

  lemma PassErase(nodes: seq<Node>, p: nat, list: seq<Node>, it: nat, cur: nat, pending: map<nat, byte>,
                  left0: nat, data0: seq<byte>, left: nat, data: seq<byte>, left': nat, data': seq<byte>)
    requires Pass(nodes, p, list, it, cur, pending, left0, data0, left, data) && it < |list|
    requires !Irrelevant(list[it], left, left + |data| - 1) && !Contains(list[it], left, left + |data| - 1)
    requires left' <= left && left + |data| <= left' + |data'| && (left' == left || left' == list[it].beg)
    requires Merged(list[..it], list[it + 1..], left', data', pending + M.Piece(left0, data0))
    ensures Pass(nodes, p + 1, list[..it] + list[it + 1..], it, cur, pending, left0, data0, left', data')
  {
    var rest := list[..it] + list[it + 1..];
    assert cur < list[it].beg;
    EraseKeeps(list, it, cur, pending);
    EraseAfter(nodes, p, list, it, cur, pending, left0, data0, left, data);
    hide Merged, Agrees, Sorted, Contains;
    assert rest[..it] == list[..it] && rest[it..] == list[it + 1..];
    forall j | it <= j < |rest| ensures left0 < rest[j].beg { assert rest[j] == list[j + 1]; }
  }

  lemma PassStart(list: seq<Node>, cur: nat, pending: map<nat, byte>, left0: nat, data0: seq<byte>)
    requires Sorted(list, cur) && Represents(list, pending) && cur <= left0
    ensures Pass(list, 0, list, 0, cur, pending, left0, data0, left0, data0)
  {
    assert list[0..] == list && list[..0] == [];
  }

  lemma PassContained(nodes: seq<Node>, p: nat, list: seq<Node>, it: nat, cur: nat, pending: map<nat, byte>,
                      left0: nat, data0: seq<byte>, left: nat, data: seq<byte>)
    requires Pass(nodes, p, list, it, cur, pending, left0, data0, left, data)
    requires it < |list| && Contains(list[it], left, left + |data| - 1)
    ensures list == nodes && M.Holds(pending, left0, |data0|)
  {
    forall k | left0 <= k < left0 + |data0| ensures k in pending {
      assert In(list[it], k);
      assert Stores(list[it], pending, k);
    }
  }

  lemma PassEnd(nodes: seq<Node>, p: nat, list: seq<Node>, it: nat, cur: nat, pending: map<nat, byte>,
                left0: nat, data0: seq<byte>, left: nat, data: seq<byte>)
    requires Sorted(nodes, cur) && Represents(nodes, pending)
    requires Pass(nodes, p, list, it, cur, pending, left0, data0, left, data) && it == |list|
    ensures Sorted(list, cur) && cur <= left <= left0 && (left == cur <==> left0 == cur)
    ensures Agrees(list, pending + M.Piece(left0, data0))
    ensures Merged(list, [], left, data, pending + M.Piece(left0, data0))
    ensures M.Holds(pending, left0, |data0|) ==> data0 == []
  {
    assert list[..it] == list && list[it..] == [];
    assert p == |nodes|;
    forall i, k: nat | 0 <= i < |list| && In(list[i], k) ensures Stores(list[i], pending + M.Piece(left0, data0), k) {
      assert Stores(list[i], pending, k);
      assert Irrelevant(list[i], left, left + |data| - 1);
    }
    if data0 != [] && M.Holds(pending, left0, |data0|) {
      OneNodeContains(nodes, cur, left0, left0 + |data0| - 1);
    }
  }

  // ---------------------------------------------------------------- after the pass

  lemma NewBytesWin(m: map<nat, byte>, left: nat, data: seq<byte>)
    requires M.Holds(m, left, |data|) ==> data == []
    ensures M.Overlay(m, left, data) == m + M.Piece(left, data)
    ensures data == [] ==> M.Overlay(m, left, data) == m
  {
    assert data == [] ==> m + M.Piece(left, data) == m;
  }

  /** The merged block is all that can be delivered, and the remaining nodes are what stays stored. */
  lemma FlushBlock(list: seq<Node>, cur: nat, data: seq<byte>, target: map<nat, byte>)
    requires Sorted(list, cur) && Agrees(list, target) && Merged(list, [], cur, data, target)
    ensures M.Run(target, cur) == data
    ensures Sorted(list, cur + |data|) && Represents(list, M.Without(target, cur, |data|))
  {
    forall i | 0 <= i < |list| ensures list[i].beg > cur + |data| {
      assert Irrelevant(list[i], cur, cur + |data| - 1);
    }
    var next: nat := cur + |data|;
    assert next in target ==> Has(list, next);
    M.RunIs(target, cur, data);
    var rest := M.Without(target, cur, |data|);
    forall i, k: nat | 0 <= i < |list| && In(list[i], k) ensures Stores(list[i], rest, k) {
      assert Stores(list[i], target, k);
    }
    assert forall k <- rest :: Has(list, k);
  }

  /** The list with the block before the first node that starts beyond it. */
  ghost function Inserted(list: seq<Node>, at: nat, n: Node): seq<Node>
    requires at <= |list|
  {
    list[..at] + [n] + list[at..]
  }

  lemma InsertedAt(list: seq<Node>, at: nat, n: Node, i: nat)
    requires at <= |list| && i <= |list|
    ensures Inserted(list, at, n)[i] == if i < at then list[i] else if i == at then n else list[i - 1]
  {
  }

  lemma InsertSorted(list: seq<Node>, at: nat, cur: nat, n: Node)
    requires Sorted(list, cur) && cur < n.beg && n.end == n.beg + |n.s| - 1 && at <= |list|
    requires forall i | 0 <= i < |list| :: if i < at then list[i].end + 1 < n.beg else n.end + 1 < list[i].beg
    ensures Sorted(Inserted(list, at, n), cur)
  {
    var list' := Inserted(list, at, n);
    forall i | 0 <= i < |list'| ensures cur < list'[i].beg && list'[i].end == list'[i].beg + |list'[i].s| - 1 {
      InsertedAt(list, at, n, i);
    }
    forall i, j | 0 <= i < j < |list'| ensures list'[i].end + 1 < list'[j].beg {
      InsertedAt(list, at, n, i);
      InsertedAt(list, at, n, j);
    }
  }

  lemma InsertRepresents(list: seq<Node>, at: nat, n: Node, target: map<nat, byte>)
    requires at <= |list| && Agrees(list, target) && n.end == n.beg + |n.s| - 1
    requires Merged(list, [], n.beg, n.s, target)
    ensures Represents(Inserted(list, at, n), target)
  {
    var list' := Inserted(list, at, n);
    forall i, k: nat | 0 <= i < |list'| && In(list'[i], k) ensures Stores(list'[i], target, k) {
      InsertedAt(list, at, n, i);
      if i == at { assert target[k] == M.ByteAt(n.beg, n.s, k); }
    }
    forall k <- target ensures Has(list', k) {
      if Has(list, k) {
        var i :| 0 <= i < |list| && In(list[i], k);
        InsertedAt(list, at, n, if i < at then i else i + 1);
        assert In(list'[if i < at then i else i + 1], k);
      } else {
        InsertedAt(list, at, n, at);
        assert In(list'[at], k);
      }
    }
  }

  lemma InsertBlock(list: seq<Node>, at: nat, cur: nat, left: nat, data: seq<byte>, target: map<nat, byte>)
    requires Sorted(list, cur) && Agrees(list, target) && Merged(list, [], left, data, target) && cur < left
    requires at <= |list| && (at < |list| ==> list[at].beg > left + |data|)
    requires forall i | 0 <= i < at :: list[i].beg <= left + |data|
    ensures var list' := Inserted(list, at, Node(data, left, left + |data| - 1));
            Sorted(list', cur) && Represents(list', target)
    ensures cur !in target
  {
    var n := Node(data, left, left + |data| - 1);
    forall i | 0 <= i < |list| ensures if i < at then list[i].end + 1 < left else list[i].beg > left + |data| {
      assert Irrelevant(list[i], left, left + |data| - 1);
    }
    InsertSorted(list, at, cur, n);
    InsertRepresents(list, at, n, target);
    assert cur in target ==> Has(list, cur);
  }

  function TotalBytes(list: seq<Node>): nat {
    if list == [] then 0 else TotalBytes(list[..|list| - 1]) + |list[|list| - 1].s|
  }

  ghost function Range(from: nat, len: nat): (s: set<nat>)
    ensures |s| == len && forall k :: k in s <==> from <= k < from + len
  {
    if len == 0 then {} else Range(from, len - 1) + {from + len - 1}
  }

  /** The last node holds exactly its own indices. */
  lemma LastHolds(list: seq<Node>, cur: nat, m: map<nat, byte>)
    requires Sorted(list, cur) && Represents(list, m) && list != []
    ensures M.Holds(m, list[|list| - 1].beg, |list[|list| - 1].s|)
  {
    var last := list[|list| - 1];
    forall k | last.beg <= k < last.beg + |last.s| ensures k in m {
      assert In(list[|list| - 1], k) && Stores(last, m, k);
    }
  }

  lemma DropLast(list: seq<Node>, cur: nat, m: map<nat, byte>)
    requires Sorted(list, cur) && Represents(list, m) && list != []
    ensures var (init, last) := (list[..|list| - 1], list[|list| - 1]);
            Sorted(init, cur) && Represents(init, M.Without(m, last.beg, |last.s|))
  {
    var init, last := list[..|list| - 1], list[|list| - 1];
    var rest := M.Without(m, last.beg, |last.s|);
    forall k <- rest ensures Has(init, k) {
      assert list == init + [last];
      HasConcat(init, [last], k);
    }
    forall i, k: nat | 0 <= i < |init| && In(init[i], k) ensures Stores(init[i], rest, k) {
      assert In(list[i], k) && Stores(list[i], m, k);
    }
  }

  lemma CountSplit(m: map<nat, byte>, from: nat, len: nat)
    requires M.Holds(m, from, len)
    ensures |m| == |M.Without(m, from, len)| + len
  {
    var rest := M.Without(m, from, len);
    assert m.Keys == rest.Keys + Range(from, len);
    assert |m| == |m.Keys| && |rest| == |rest.Keys|;
  }

  /** Each stored index is counted once. */
  lemma {:induction false} CountBytes(list: seq<Node>, cur: nat, m: map<nat, byte>)
    requires Sorted(list, cur) && Represents(list, m)
    ensures TotalBytes(list) == |m|
  {
    if list == [] {
      assert m == map[];
    } else {
      hide Sorted, Represents;
      var last := list[|list| - 1];
      LastHolds(list, cur, m);
      DropLast(list, cur, m);
      CountBytes(list[..|list| - 1], cur, M.Without(m, last.beg, |last.s|));
      CountSplit(m, last.beg, |last.s|);
    }
  }

  class StreamReassembler {
    const output: ByteStream
    const capacity: nat
    var curIndex: nat
    var eof: bool
    var list: seq<Node>
    ghost var pending: map<nat, byte>

    ghost predicate Valid()
      reads this, output
    {
      output.Valid() && Sorted(list, curIndex) && Represents(list, pending)
    }

    ghost function State(): M.Reassembly
      requires Valid()
      reads this, output
    {
      M.Reassembly(output.State(), curIndex, pending, eof)
    }

    constructor (capacity: nat)
      ensures Valid() && fresh(output) && State() == M.NewReassembly(capacity)
    {
      this.capacity := capacity;
      output := new ByteStream(capacity);
      curIndex, eof, list := 0, false, [];
      pending := map[];
    }

    /**
     The one-pass merge over the list, starting from substring `data0` at `left0`. Either some node holds
     it already and nothing changed, or what is left of the list is clear of the merged block.
     */
    method Merge(left0: nat, data0: seq<byte>) returns (contained: bool, left: nat, right: int, data: seq<byte>)
      requires Valid() && curIndex <= left0
      modifies this`list
      ensures contained ==> list == old(list) && M.Holds(pending, left0, |data0|)
      ensures !contained ==>
        && right == left + |data| - 1 && curIndex <= left <= left0 && (left == curIndex <==> left0 == curIndex)
        && Sorted(list, curIndex) && Agrees(list, pending + M.Piece(left0, data0))
        && Merged(list, [], left, data, pending + M.Piece(left0, data0))
        && (M.Holds(pending, left0, |data0|) ==> data0 == [])
    {
      hide Pass, Sorted, Merged, Agrees, Represents;
      ghost var nodes: seq<Node>, p: nat := list, 0;
      contained, left, right, data := false, left0, left0 + |data0| - 1, data0;
      var it: nat := 0;
      PassStart(list, curIndex, pending, left0, data0);
      while it < |list|
        invariant Pass(nodes, p, list, it, curIndex, pending, left0, data0, left, data)
        invariant it <= |list| && right == left + |data| - 1
        decreases |list| - it
      {
        var n := list[it];
        if n.end + 1 < left || n.beg > right + 1 {
          PassSkip(nodes, p, list, it, curIndex, pending, left0, data0, left, data);
          it, p := it + 1, p + 1;
          continue;
        }
        if n.beg <= left && n.end >= right {
          PassContained(nodes, p, list, it, curIndex, pending, left0, data0, left, data);
          contained := true;
          return;
        }
        ghost var left1, data1 := left, data;
        AbsorbNode(nodes, p, list, it, curIndex, pending, left0, data0, left, data);
        if n.end <= right && n.beg >= left {
        } else if n.end + 1 >= left && n.end + 1 <= right {
          data := n.s[..left - n.beg] + data;
          left := n.beg;
        } else if n.beg >= left + 1 && n.beg <= right + 1 {
          data := data + n.s[right + 1 - n.beg..];
          right := n.end;
        } else {
          // throw runtime_error("Control flow shouldn't reach here!")
          assert false;
        }
        PassErase(nodes, p, list, it, curIndex, pending, left0, data0, left1, data1, left, data);
        list := list[..it] + list[it + 1..];
        p := p + 1;
      }
      PassEnd(nodes, p, list, it, curIndex, pending, left0, data0, left, data);
    }

    method Insert(left: nat, right: int, data: seq<byte>, ghost target: map<nat, byte>)
      requires Sorted(list, curIndex) && Agrees(list, target) && Merged(list, [], left, data, target)
      requires curIndex < left && right == left + |data| - 1
      modifies this`list
      ensures Sorted(list, curIndex) && Represents(list, target) && curIndex !in target
    {
      hide Sorted, Agrees, Merged, Represents;
      var it := 0;
      while it < |list| && list[it].beg <= right + 1
        invariant it <= |list| && forall i | 0 <= i < it :: list[i].beg <= right + 1
      {
        it := it + 1;
      }
      InsertBlock(list, it, curIndex, left, data, target);
      list := list[..it] + [Node(data, left, right)] + list[it..];
    }

    method UnassembledBytes() returns (n: nat)
      requires Valid()
      ensures n == |State().pending|
    {
      n := 0;
      for i := 0 to |list|
        invariant n == TotalBytes(list[..i])
      {
        assert list[..i + 1][..i] == list[..i];
        n := n + |list[i].s|;
      }
      assert list[..|list|] == list;
      CountBytes(list, curIndex, pending);
    }

    /** The code after the label `out`. */
    method Finish(shouldSetEof: bool)
      requires Valid()
      modifies this`eof, output`inputIsEnd
      ensures Valid() && State() == M.Conclude(old(State()), shouldSetEof)
    {
      if shouldSetEof {
        eof := true;
      }
      var stored := UnassembledBytes();
      if eof && stored == 0 {
        assert pending == map[];
        output.EndInput();
      }
    }

    /** Returns false where the C++ throws because the output stream took fewer bytes than were assembled. */
    method PushSubstring(data: seq<byte>, index: nat, eof: bool) returns (ok: bool)
      requires Valid()
      modifies this, output
      ensures Valid()
      ensures (if ok then Returned(State()) else Thrown(State())) == M.Push(old(State()), data, index, eof)
    {
      hide Sorted, Represents, M.Overlay, M.Settle, M.Conclude;
      var actualData := data;
      var firstUnavailable := curIndex + output.RemainingCapacity();
      var left, shouldSetEof := index, eof;
      if firstUnavailable == curIndex {
        return true;
      }
      if left < curIndex {
        var offset := curIndex - index;
        if offset >= |actualData| {
          NothingNew(shouldSetEof);
          NewBytesWin(pending, curIndex, []);
          Finish(shouldSetEof);
          return true;
        }
        actualData := actualData[offset..];
        left := curIndex;
      }
      if left + |actualData| > firstUnavailable {
        if left <= firstUnavailable {
          actualData := actualData[..firstUnavailable - left];
        }
        shouldSetEof := false;
      }
      assert M.Trim(curIndex, firstUnavailable, data, index, eof) == M.Trimmed(left, actualData, shouldSetEof);
      ok := Store(left, actualData, shouldSetEof);
    }

    lemma NothingNew(shouldSetEof: bool)
      requires Valid()
      ensures M.Settle(State(), pending, shouldSetEof) == Returned(M.Conclude(State(), shouldSetEof))
    {
      assert curIndex in pending ==> Has(list, curIndex);
      assert M.Without(pending, curIndex, 0) == pending;
      assert S.Write(output.State(), []) == output.State();
    }

    /** Merge a trimmed substring, then deliver the block or insert it. */
    method Store(left0: nat, data0: seq<byte>, shouldSetEof: bool) returns (ok: bool)
      requires Valid() && curIndex <= left0
      modifies this, output
      ensures Valid()
      ensures (if ok then Returned(State()) else Thrown(State())) ==
              M.Settle(old(State()), M.Overlay(old(State()).pending, left0, data0), shouldSetEof)
    {
      hide Sorted, Agrees, Merged, Represents, M.Conclude, M.Run, M.Without, M.Piece;
      ghost var target := pending + M.Piece(left0, data0);
      var contained, left, right, data := Merge(left0, data0);
      if contained {
        NothingNew(shouldSetEof);
        Finish(shouldSetEof);
        return true;
      }
      NewBytesWin(pending, left0, data0);
      if left == curIndex {
        FlushBlock(list, curIndex, data, target);
        pending := M.Without(target, curIndex, |data|);
        var written := output.Write(data);
        if |data| != written {
          return false;
        }
        curIndex := curIndex + |data|;
      } else {
        Insert(left, right, data, target);
        pending := target;
        NothingNew(shouldSetEof);
      }
      Finish(shouldSetEof);
      ok := true;
    }
  }
}
