/**
 What the reassembler does, with its list of substrings seen as a map from stream index to byte
 (stream_reassembler.{hh,cc}).
 */
module ReassemblyModel {
  import opened Types
  import opened StreamModel

  datatype Reassembly = Reassembly(out: Stream, cur: nat, pending: map<nat, byte>, eof: bool)

  function NewReassembly(capacity: nat): Reassembly {
    Reassembly(NewStream(capacity), 0, map[], false)
  }

  /** The first index that does not fit: `_cur_index + remaining_capacity()`. */
  function Edge(r: Reassembly): nat { r.cur + Room(r.out) }

  /** What every call keeps: nothing stored is deliverable yet, and all that was written is counted. */
  ghost predicate Valid(r: Reassembly) {
    && r.cur == |r.out.all|
    && forall k <- r.pending :: r.cur < k
  }

  function ByteAt(index: nat, data: seq<byte>, k: nat): byte
    requires index <= k < index + |data|
  {
    data[k - index]
  }

  /** The substring as a map: byte `k` of the stream, for each `k` it spans. */
  function Piece(index: nat, data: seq<byte>): map<nat, byte> {
    map k | index <= k < index + |data| :: ByteAt(index, data, k)
  }

  predicate Holds(m: map<nat, byte>, left: nat, len: nat) {
    forall k | left <= k < left + len :: k in m
  }

  /** The part of a substring that can be kept, and whether it still carries the end of the stream. */
  datatype Trimmed = Trimmed(left: nat, data: seq<byte>, eof: bool)

  function Trim(cur: nat, edge: nat, data: seq<byte>, index: nat, eof: bool): Trimmed {
    if index < cur && cur - index >= |data| then
      Trimmed(cur, [], eof)
    else
      var left := if index < cur then cur else index;
      var kept := if index < cur then data[cur - index..] else data;
      if left + |kept| > edge then
        // `first_unavailable - left` is unsigned: beyond the edge it wraps and cuts nothing.
        Trimmed(left, if left <= edge then kept[..edge - left] else kept, false)
      else
        Trimmed(left, kept, eof)
  }

  /** The bytes at `at`, `at + 1`, ... up to the first missing one. */
  function Run(m: map<nat, byte>, at: nat): seq<byte>
    decreases |m|
  {
    if at in m then [m[at]] + Run(m - {at}, at + 1) else []
  }

  function Without(m: map<nat, byte>, from: nat, len: nat): map<nat, byte> {
    map k | k in m && !(from <= k < from + len) :: m[k]
  }

  /** A substring whose every index is stored already changes nothing; otherwise its bytes win. */
  function Overlay(m: map<nat, byte>, left: nat, data: seq<byte>): map<nat, byte> {
    if Holds(m, left, |data|) then m else m + Piece(left, data)
  }

  /** The code after the label `out`: latch the end, and announce it once nothing is stored. */
  function Conclude(r: Reassembly, eof: bool): Reassembly {
    var ended := r.eof || eof;
    r.(eof := ended, out := if ended && r.pending == map[] then EndInput(r.out) else r.out)
  }

  /** Deliver what has become contiguous; throw if the output stream cannot take it all. */
  function Settle(r: Reassembly, m: map<nat, byte>, eof: bool): Outcome<Reassembly> {
    var run := Run(m, r.cur);
    var r' := r.(out := Write(r.out, run), pending := Without(m, r.cur, |run|));
    if |run| > Room(r.out) then Thrown(r')
    else Returned(Conclude(r'.(cur := r.cur + |run|), eof))
  }

  function Push(r: Reassembly, data: seq<byte>, index: nat, eof: bool): Outcome<Reassembly> {
    if Room(r.out) == 0 then Returned(r)
    else
      var t := Trim(r.cur, Edge(r), data, index, eof);
      Settle(r, Overlay(r.pending, t.left, t.data), t.eof)
  }

  // ---------------------------------------------------------------- the run that gets delivered

  lemma {:induction false} RunHolds(m: map<nat, byte>, at: nat)
    ensures forall k | at <= k < at + |Run(m, at)| :: k in m && ByteAt(at, Run(m, at), k) == m[k]
    ensures at + |Run(m, at)| !in m
    decreases |m|
  {
    if at in m {
      var tail := Run(m - {at}, at + 1);
      assert Run(m, at) == [m[at]] + tail;
      RunHolds(m - {at}, at + 1);
      hide Run;
      forall k | at < k < at + |Run(m, at)| ensures k in m && ByteAt(at, Run(m, at), k) == m[k] {
        assert ByteAt(at, Run(m, at), k) == ByteAt(at + 1, tail, k);
      }
    }
  }

  /** A gapless block followed by a gap is exactly what is delivered. */
  lemma RunIs(m: map<nat, byte>, at: nat, data: seq<byte>)
    requires forall k | at <= k < at + |data| :: k in m && m[k] == ByteAt(at, data, k)
    requires at + |data| !in m
    ensures Run(m, at) == data
  {
    RunHolds(m, at);
    var run := Run(m, at);
    if |run| == |data| {
      forall i | 0 <= i < |run| ensures run[i] == data[i] {
        assert ByteAt(at, run, at + i) == ByteAt(at, data, at + i);
      }
    }
  }

  // ---------------------------------------------------------------- a push is a union of index sets

  ghost predicate Covered(r: Reassembly, k: nat) { k < r.cur || k in r.pending }

  /** Everything stored lies below the window edge. */
  ghost predicate Bounded(r: Reassembly) { forall k <- r.pending :: k < Edge(r) }

  /** The indices a push asks for and the reassembler takes. */
  ghost predicate Taken(r: Reassembly, data: seq<byte>, index: nat, k: nat) {
    index <= k < index + |data| && Room(r.out) > 0 && (k < Edge(r) || Edge(r) < index)
  }

  lemma OverlayKeys(r: Reassembly, data: seq<byte>, index: nat, eof: bool, k: nat)
    requires Room(r.out) > 0
    ensures var t := Trim(r.cur, Edge(r), data, index, eof);
            k in Overlay(r.pending, t.left, t.data) <==>
            k in r.pending || (r.cur <= k && Taken(r, data, index, k))
  {
  }

  /** Settling delivers the run at the current index and loses no other index. */
  lemma SettleCovers(r: Reassembly, m: map<nat, byte>, eof: bool, k: nat)
    requires r.cur == |r.out.all| && Settle(r, m, eof).Returned?
    requires forall j <- m :: r.cur <= j
    ensures var r' := Settle(r, m, eof).value;
            && Edge(r') == Edge(r) && r.cur <= r'.cur == |r'.out.all| && r'.cur !in m
            && (Covered(r', k) <==> k < r.cur || k in m)
            && (k in r'.pending ==> r'.cur < k)
  {
    RunHolds(m, r.cur);
  }

  /** A push that returns adds exactly the indices it takes, stops at the first missing one and keeps the edge. */
  lemma PushCovers(r: Reassembly, data: seq<byte>, index: nat, eof: bool)
    requires Valid(r) && Push(r, data, index, eof).Returned?
    ensures var r' := Push(r, data, index, eof).value;
            && Valid(r') && Edge(r') == Edge(r)
            && !Covered(r', r'.cur) && r.cur <= r'.cur
            && forall k: nat :: Covered(r', k) <==> Covered(r, k) || Taken(r, data, index, k)
  {
    if Room(r.out) > 0 {
      var t := Trim(r.cur, Edge(r), data, index, eof);
      var m := Overlay(r.pending, t.left, t.data);
      forall j <- m ensures r.cur <= j { OverlayKeys(r, data, index, eof, j); }
      var r' := Settle(r, m, t.eof).value;
      forall k: nat
        ensures Covered(r', k) <==> Covered(r, k) || Taken(r, data, index, k)
        ensures k in r'.pending ==> r'.cur < k
      {
        OverlayKeys(r, data, index, eof, k);
        SettleCovers(r, m, t.eof, k);
      }
      SettleCovers(r, m, t.eof, r'.cur);
    }
  }

  /** Pushes that start at or below the edge never throw and never store past it. */
  lemma PushWithinWindow(r: Reassembly, data: seq<byte>, index: nat, eof: bool)
    requires Valid(r) && Bounded(r) && index <= Edge(r)
    ensures Push(r, data, index, eof).Returned? && Bounded(Push(r, data, index, eof).value)
  {
    if Room(r.out) > 0 {
      var t := Trim(r.cur, Edge(r), data, index, eof);
      var m := Overlay(r.pending, t.left, t.data);
      RunHolds(m, r.cur);
      var run := Run(m, r.cur);
      if |run| > Room(r.out) {
        OverlayKeys(r, data, index, eof, Edge(r));
        assert false;
      }
      forall k | k in m ensures k < Edge(r) { OverlayKeys(r, data, index, eof, k); }
    }
  }

  /** A push throws exactly when it makes every index up to and including the edge deliverable. */
  lemma PushThrowsExactly(r: Reassembly, data: seq<byte>, index: nat, eof: bool)
    requires Valid(r)
    ensures Push(r, data, index, eof).Thrown? <==>
            Room(r.out) > 0 && forall k: nat | r.cur <= k <= Edge(r) :: Covered(r, k) || Taken(r, data, index, k)
  {
    if Room(r.out) > 0 {
      var t := Trim(r.cur, Edge(r), data, index, eof);
      var m := Overlay(r.pending, t.left, t.data);
      RunHolds(m, r.cur);
      hide Trim, Overlay;
      var gap := r.cur + |Run(m, r.cur)|;
      OverlayKeys(r, data, index, eof, gap);
      if gap > Edge(r) {
        forall k: nat | r.cur <= k <= Edge(r) ensures Covered(r, k) || Taken(r, data, index, k) {
          OverlayKeys(r, data, index, eof, k);
        }
      }
    }
  }
}
