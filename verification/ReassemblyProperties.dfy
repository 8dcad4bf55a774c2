/** What the reassembler promises: right bytes, right end, bounded memory, any arrival order. */
module ReassemblyProperties {
  import opened Types
  import opened StreamModel
  import opened ReassemblyModel

  /** `data` is empty, or what the source stream holds at `index`. */
  ghost predicate Excerpt(data: seq<byte>, index: nat, source: seq<byte>) {
    data != [] ==> index + |data| <= |source| && data == source[index..index + |data|]
  }

  /** Delivered bytes are a prefix of the source, and each stored byte is the source's byte there. */
  ghost predicate Matches(r: Reassembly, source: seq<byte>) {
    && r.cur <= |source| && r.out.all == source[..r.cur]
    && forall k <- r.pending :: k < |source| && r.pending[k] == source[k]
  }

  // ---------------------------------------------------------------- content

  /** What trimming keeps stays where it was. */
  lemma TrimKeeps(cur: nat, edge: nat, data: seq<byte>, index: nat, eof: bool, k: nat)
    ensures var t := Trim(cur, edge, data, index, eof);
            t.left <= k < t.left + |t.data| ==> index <= k < index + |data| && t.data[k - t.left] == data[k - index]
  {
  }

  lemma OverlayMatches(r: Reassembly, data: seq<byte>, index: nat, eof: bool, source: seq<byte>, k: nat)
    requires Matches(r, source) && Excerpt(data, index, source)
    ensures var t := Trim(r.cur, Edge(r), data, index, eof);
            var m := Overlay(r.pending, t.left, t.data);
            k in m ==> k < |source| && m[k] == source[k]
  {
    hide Trim;
    var t := Trim(r.cur, Edge(r), data, index, eof);
    TrimKeeps(r.cur, Edge(r), data, index, eof, k);
    if k in Piece(t.left, t.data) {
      assert Piece(t.left, t.data)[k] == data[k - index];
    }
  }

  lemma RunMatches(m: map<nat, byte>, at: nat, source: seq<byte>)
    requires at <= |source| && forall k <- m :: k < |source| && m[k] == source[k]
    ensures at + |Run(m, at)| <= |source|
    ensures source[..at] + Run(m, at) == source[..at + |Run(m, at)|]
  {
    RunHolds(m, at);
    var run := Run(m, at);
    assert |run| > 0 ==> at + |run| - 1 in m;
    forall i | 0 <= i < |run| ensures run[i] == source[at + i] {
      assert ByteAt(at, run, at + i) == m[at + i];
    }
  }

  lemma SettleMatches(r: Reassembly, m: map<nat, byte>, eof: bool, source: seq<byte>)
    requires r.cur <= |source| && r.out.all == source[..r.cur]
    requires forall k <- m :: k < |source| && m[k] == source[k]
    requires Settle(r, m, eof).Returned?
    ensures Matches(Settle(r, m, eof).value, source)
  {
    RunMatches(m, r.cur, source);
  }

  /** However excerpts arrive, what is delivered stays a prefix of the source and what is stored stays right. */
  lemma PushMatches(r: Reassembly, data: seq<byte>, index: nat, eof: bool, source: seq<byte>)
    requires Valid(r) && Matches(r, source) && Excerpt(data, index, source)
    requires Push(r, data, index, eof).Returned?
    ensures Matches(Push(r, data, index, eof).value, source)
  {
    if Room(r.out) > 0 {
      var t := Trim(r.cur, Edge(r), data, index, eof);
      forall k <- Overlay(r.pending, t.left, t.data) {
        OverlayMatches(r, data, index, eof, source, k);
      }
      SettleMatches(r, Overlay(r.pending, t.left, t.data), t.eof, source);
    }
  }

  // ---------------------------------------------------------------- the end of the stream

  /** Once the end is known, the last byte is delivered or stored; the output ends only after it. */
  ghost predicate EndIsRight(r: Reassembly, source: seq<byte>) {
    && (r.out.ended ==> r.cur == |source|)
    && (r.eof ==> r.cur == |source| || |source| - 1 in r.pending)
  }

  /** An empty final substring that arrives within the window while the byte before it is missing. */
  predicate PrematureEnd(r: Reassembly, data: seq<byte>, index: nat, eof: bool) {
    && eof && data == [] && Room(r.out) > 0
    && r.cur < index <= Edge(r) && index - 1 !in r.pending
  }

  lemma TrimEof(cur: nat, edge: nat, data: seq<byte>, index: nat, eof: bool)
    requires cur <= edge
    ensures Trim(cur, edge, data, index, eof).eof <==> eof && index + |data| <= edge
  {
  }

  /**
   The end is latched exactly when the final substring fits in the window as a whole, and announced exactly when
   no index beyond the new current one is covered.
   */
  lemma PushEof(r: Reassembly, data: seq<byte>, index: nat, eof: bool)
    requires Valid(r) && Push(r, data, index, eof).Returned? && Room(r.out) > 0
    ensures var r' := Push(r, data, index, eof).value;
            && (r'.eof <==> r.eof || (eof && index + |data| <= Edge(r)))
            && (r'.out.ended <==>
                  r.out.ended || (r'.eof && forall k: nat :: Covered(r, k) || Taken(r, data, index, k) ==> k < r'.cur))
  {
    var r' := Push(r, data, index, eof).value;
    TrimEof(r.cur, Edge(r), data, index, eof);
    PushCovers(r, data, index, eof);
    hide Trim, Overlay, Run, Without;
    forall k: nat ensures (Covered(r, k) || Taken(r, data, index, k)) && k >= r'.cur <==> k in r'.pending {
      assert Covered(r', k) <==> Covered(r, k) || Taken(r, data, index, k);
    }
    assert r'.pending == map[] <==> r'.pending.Keys == {};
  }

  /** A truncated final substring does not latch the end, and ends the output only if the end was known before. */
  lemma TruncatedEnd(r: Reassembly, data: seq<byte>, index: nat, eof: bool)
    requires Valid(r) && Push(r, data, index, eof).Returned? && Edge(r) < index + |data|
    ensures var r' := Push(r, data, index, eof).value;
            r'.eof == r.eof && (r'.out.ended ==> r.out.ended || r.eof)
  {
    if Room(r.out) > 0 {
      PushEof(r, data, index, eof);
      hide Push;
    }
  }

  /** The end is announced correctly after a push if and only if the push was not a premature end. */
  lemma PushEndExact(r: Reassembly, data: seq<byte>, index: nat, eof: bool, source: seq<byte>)
    requires Valid(r) && Matches(r, source) && Excerpt(data, index, source)
    requires EndIsRight(r, source) && (eof ==> index + |data| == |source|)
    requires Push(r, data, index, eof).Returned?
    ensures EndIsRight(Push(r, data, index, eof).value, source) <==> !PrematureEnd(r, data, index, eof)
  {
    if Room(r.out) > 0 {
      var r' := Push(r, data, index, eof).value;
      PushCovers(r, data, index, eof);
      PushMatches(r, data, index, eof, source);
      PushEof(r, data, index, eof);
      hide Push, Excerpt;
      assert !Covered(r', r'.cur);
      if source != [] {
        var last: nat := |source| - 1;
        assert Covered(r', last) <==> Covered(r, last) || Taken(r, data, index, last);
      }
    }
  }

  /** The family is not empty: a bare FIN ahead of a two-byte gap ends the stream with nothing delivered. */
  lemma PrematureEndExample()
    ensures var r := NewReassembly(8);
            && PrematureEnd(r, [], 2, true)
            && Push(r, [], 2, true) == Returned(r.(out := EndInput(r.out), eof := true))
            && Push(r, [], 0, false) == Returned(r)
  {
    assert Without(map[], 0, 0) == map[];
  }

  // ---------------------------------------------------------------- memory

  lemma {:induction false} KeysInRange(keys: set<nat>, lo: nat, hi: nat)
    requires lo <= hi && forall k <- keys :: lo <= k < hi
    ensures |keys| <= hi - lo
    decreases hi - lo
  {
    if lo < hi {
      KeysInRange(keys - {lo}, lo + 1, hi);
    } else {
      assert keys == {};
    }
  }

  /** Buffered and unassembled bytes together never exceed the capacity. */
  lemma BoundedFits(r: Reassembly)
    requires Valid(r) && Bounded(r)
    ensures |Buffer(r.out)| + |r.pending| <= r.out.capacity
  {
    KeysInRange(r.pending.Keys, r.cur, Edge(r));
    assert |r.pending.Keys| == |r.pending|;
  }

  /** A push breaks the bound exactly when non-empty data starts strictly beyond an open window. */
  lemma BoundedExact(r: Reassembly, data: seq<byte>, index: nat, eof: bool)
    requires Valid(r) && Bounded(r) && Push(r, data, index, eof).Returned?
    ensures Bounded(Push(r, data, index, eof).value) <==>
            index <= Edge(r) || data == [] || Room(r.out) == 0
  {
    var r' := Push(r, data, index, eof).value;
    PushCovers(r, data, index, eof);
    if index <= Edge(r) {
      PushWithinWindow(r, data, index, eof);
    } else if data != [] && Room(r.out) > 0 {
      assert Taken(r, data, index, index);
      assert Covered(r', index);
      assert Covered(r', Edge(r)) <==> Covered(r, Edge(r)) || Taken(r, data, index, Edge(r));
    } else {
      forall k | k in r'.pending ensures k < Edge(r) { assert Covered(r', k); }
    }
  }

  /** One byte beyond a window of two is stored beyond it. */
  lemma BeyondWindowExample()
    ensures var r := NewReassembly(2);
            && Bounded(r) && Push(r, [1], 3, false).Returned? && !Bounded(Push(r, [1], 3, false).value)
  {
    var r := NewReassembly(2);
    assert !(Covered(r, 0) || Taken(r, [1], 3, 0));
    PushThrowsExactly(r, [1], 3, false);
    BoundedExact(r, [1], 3, false);
  }

  /**
   In a reassembler of capacity 2: a byte at 3, beyond the window, then the byte at 0, one byte read, and the bytes at
   1 and 2. Three bytes become deliverable at once and the output stream takes two.
   */
  lemma ThrowExample(ahead: seq<byte>, first: seq<byte>, rest: seq<byte>)
    requires |ahead| == |first| == 1 && |rest| == 2
    ensures var r1 := Push(NewReassembly(2), ahead, 3, false);
            r1.Returned? &&
            var r2 := Push(r1.value, first, 0, false);
            r2.Returned? &&
            var r3 := r2.value.(out := Pop(r2.value.out, 1));
            Push(r3, rest, 1, false).Thrown?
  {
    var r := NewReassembly(2);
    hide Push;
    var r1 := StepTo(r, ahead, 3, 0);
    assert Taken(r, ahead, 3, 3) && Covered(r1, 3) && !Covered(r1, 1);
    var r2 := StepTo(r1, first, 0, 1);
    assert Covered(r2, 3);
    var r3 := r2.(out := Pop(r2.out, 1));
    forall k: nat | r3.cur <= k <= Edge(r3) ensures Covered(r3, k) || Taken(r3, rest, 1, k) {
      assert k == 1 || k == 2 || k == 3;
    }
    PushThrowsExactly(r3, rest, 1, false);
  }

  /** A push that leaves index `gap` the first one missing, below or at the edge. */
  lemma StepTo(r: Reassembly, data: seq<byte>, index: nat, gap: nat) returns (r': Reassembly)
    requires Valid(r) && r.cur <= gap <= Edge(r) && !(Covered(r, gap) || Taken(r, data, index, gap))
    requires forall k: nat | k < gap :: Covered(r, k) || Taken(r, data, index, k)
    ensures Push(r, data, index, false) == Returned(r')
    ensures Valid(r') && r'.cur == gap && Edge(r') == Edge(r)
    ensures r'.out.read == r.out.read && r'.out.capacity == r.out.capacity
    ensures forall k: nat :: Covered(r', k) <==> Covered(r, k) || Taken(r, data, index, k)
  {
    hide Push;
    PushThrowsExactly(r, data, index, false);
    PushCovers(r, data, index, false);
    PushQuiet(r, data, index, false);
    FirstGap(r, data, index, false, gap);
    r' := Push(r, data, index, false).value;
  }

  /** A push leaves what was read and the capacity alone. */
  lemma PushQuiet(r: Reassembly, data: seq<byte>, index: nat, eof: bool)
    ensures var r' := Push(r, data, index, eof).value;
            r'.out.read == r.out.read && r'.out.capacity == r.out.capacity && r'.out.error == r.out.error
  {
  }

  /** The current index after a push is the first one not covered. */
  lemma FirstGap(r: Reassembly, data: seq<byte>, index: nat, eof: bool, gap: nat)
    requires Valid(r) && Push(r, data, index, eof).Returned?
    requires !(Covered(r, gap) || Taken(r, data, index, gap))
    requires forall k: nat | k < gap :: Covered(r, k) || Taken(r, data, index, k)
    ensures Push(r, data, index, eof).value.cur == gap
  {
    PushCovers(r, data, index, eof);
    var r' := Push(r, data, index, eof).value;
    assert !Covered(r', gap);
    assert r'.cur < gap ==> Covered(r', r'.cur);
  }

  // ---------------------------------------------------------------- arrival order and splitting

  datatype Arrival = Arrival(data: seq<byte>, index: nat, eof: bool)

  function PushAll(r: Reassembly, arrivals: seq<Arrival>): Outcome<Reassembly> {
    if arrivals == [] then Returned(r)
    else
      var last := arrivals[|arrivals| - 1];
      var before := PushAll(r, arrivals[..|arrivals| - 1]);
      if before.Thrown? then before else Push(before.value, last.data, last.index, last.eof)
  }

  /** Index `k` is below the edge and some arrival spans it. */
  ghost predicate Asked(arrivals: seq<Arrival>, edge: nat, k: nat) {
    k < edge && exists a <- arrivals :: a.index <= k < a.index + |a.data|
  }

  ghost predicate Admissible(arrivals: seq<Arrival>, edge: nat, source: seq<byte>) {
    forall a <- arrivals :: a.index <= edge && Excerpt(a.data, a.index, source)
  }

  lemma AskedLast(arrivals: seq<Arrival>, edge: nat, k: nat)
    requires arrivals != []
    ensures var (init, last) := (arrivals[..|arrivals| - 1], arrivals[|arrivals| - 1]);
            Asked(arrivals, edge, k) <==>
            Asked(init, edge, k) || (k < edge && last.index <= k < last.index + |last.data|)
  {
    assert arrivals == arrivals[..|arrivals| - 1] + [arrivals[|arrivals| - 1]];
  }

  lemma {:induction false} PushAllCovers(r: Reassembly, arrivals: seq<Arrival>, source: seq<byte>)
    requires Valid(r) && Bounded(r) && Matches(r, source) && Admissible(arrivals, Edge(r), source)
    ensures PushAll(r, arrivals).Returned?
    ensures var r' := PushAll(r, arrivals).value;
            && Valid(r') && Bounded(r') && Matches(r', source) && Edge(r') == Edge(r)
            && (forall k: nat :: Covered(r', k) <==> Covered(r, k) || Asked(arrivals, Edge(r), k))
    decreases |arrivals|
  {
    if arrivals != [] {
      var init, last := arrivals[..|arrivals| - 1], arrivals[|arrivals| - 1];
      PushAllCovers(r, init, source);
      var mid := PushAll(r, init).value;
      PushWithinWindow(mid, last.data, last.index, last.eof);
      PushCovers(mid, last.data, last.index, last.eof);
      PushMatches(mid, last.data, last.index, last.eof, source);
      hide Push, Excerpt, Matches, Bounded, Asked;
      forall k: nat
        ensures Asked(arrivals, Edge(r), k) <==>
                Asked(init, Edge(r), k) || (k < Edge(r) && last.index <= k < last.index + |last.data|)
      {
        AskedLast(arrivals, Edge(r), k);
      }
    }
  }

  lemma CoverageDetermines(r1: Reassembly, r2: Reassembly, source: seq<byte>)
    requires Valid(r1) && Valid(r2) && Matches(r1, source) && Matches(r2, source)
    requires forall k: nat :: Covered(r1, k) <==> Covered(r2, k)
    ensures r1.cur == r2.cur && r1.pending == r2.pending && r1.out.all == r2.out.all
  {
    assert Covered(r1, r2.cur) <==> Covered(r2, r2.cur);
    assert Covered(r1, r1.cur) <==> Covered(r2, r1.cur);
    forall k: nat ensures k in r1.pending <==> k in r2.pending {
      assert Covered(r1, k) <==> Covered(r2, k);
    }
    assert r1.pending.Keys == r2.pending.Keys;
  }

  /** Two batches of excerpts spanning the same indices leave the same bytes delivered and stored. */
  lemma OrderIrrelevant(r: Reassembly, first: seq<Arrival>, second: seq<Arrival>, source: seq<byte>)
    requires Valid(r) && Bounded(r) && Matches(r, source)
    requires Admissible(first, Edge(r), source) && Admissible(second, Edge(r), source)
    requires forall k: nat :: Asked(first, Edge(r), k) <==> Asked(second, Edge(r), k)
    ensures PushAll(r, first).Returned? && PushAll(r, second).Returned?
    ensures var (r1, r2) := (PushAll(r, first).value, PushAll(r, second).value);
            r1.cur == r2.cur && r1.pending == r2.pending && r1.out.all == r2.out.all
  {
    PushAllCovers(r, first, source);
    PushAllCovers(r, second, source);
    CoverageDetermines(PushAll(r, first).value, PushAll(r, second).value, source);
  }

  // ---------------------------------------------------------------- arrival order and the end

  /** No arrival is a premature end when its turn comes. */
  predicate NoPremature(r: Reassembly, arrivals: seq<Arrival>) {
    arrivals == [] ||
    var (before, last) := (PushAll(r, arrivals[..|arrivals| - 1]), arrivals[|arrivals| - 1]);
    NoPremature(r, arrivals[..|arrivals| - 1]) && !PrematureEnd(before.value, last.data, last.index, last.eof)
  }

  /** The end flag stands only on arrivals that reach the end of the source. */
  ghost predicate Flagged(arrivals: seq<Arrival>, source: seq<byte>) {
    forall a <- arrivals :: a.eof ==> a.index + |a.data| == |source|
  }

  /** The output has ended exactly when the end is known and everything is delivered. */
  ghost predicate EndIsExact(r: Reassembly, source: seq<byte>) {
    EndIsRight(r, source) && (r.out.ended <==> r.eof && r.cur == |source|)
  }

  /** The source does not end exactly where an open window does, or the end is known already. */
  ghost predicate EndClearOfEdge(r: Reassembly, source: seq<byte>) {
    |source| != Edge(r) || Room(r.out) == 0 || r.eof
  }

  lemma PushEndIsExact(r: Reassembly, data: seq<byte>, index: nat, eof: bool, source: seq<byte>)
    requires Valid(r) && Matches(r, source) && Excerpt(data, index, source) && EndIsExact(r, source)
    requires (eof ==> index + |data| == |source|) && !PrematureEnd(r, data, index, eof)
    requires Push(r, data, index, eof).Returned?
    ensures EndIsExact(Push(r, data, index, eof).value, source)
  {
    PushEndExact(r, data, index, eof, source);
    if Room(r.out) > 0 {
      PushEof(r, data, index, eof);
      PushCovers(r, data, index, eof);
      PushMatches(r, data, index, eof, source);
      hide Push, Excerpt, Taken;
      var r' := Push(r, data, index, eof).value;
      forall k: nat | r'.cur == |source| ensures Covered(r, k) || Taken(r, data, index, k) ==> k < r'.cur {
        assert Covered(r', k) <==> Covered(r, k) || Taken(r, data, index, k);
      }
    }
  }

  /** The end stays exact and is latched as asked; what was read, the capacity and the error stay. */
  ghost predicate EndMoves(r: Reassembly, r': Reassembly, asked: bool, source: seq<byte>) {
    && EndIsExact(r', source) && EndClearOfEdge(r', source)
    && (r'.eof <==> r.eof || (|source| < Edge(r) && asked))
    && r'.out.read == r.out.read && r'.out.capacity == r.out.capacity && r'.out.error == r.out.error
  }

  lemma PushEnds(r: Reassembly, data: seq<byte>, index: nat, eof: bool, source: seq<byte>)
    requires Valid(r) && Matches(r, source) && Excerpt(data, index, source)
    requires EndIsExact(r, source) && EndClearOfEdge(r, source)
    requires (eof ==> index + |data| == |source|) && !PrematureEnd(r, data, index, eof)
    requires Push(r, data, index, eof).Returned?
    ensures EndMoves(r, Push(r, data, index, eof).value, eof, source)
  {
    PushEndIsExact(r, data, index, eof, source);
    PushQuiet(r, data, index, eof);
    PushCovers(r, data, index, eof);
    if Room(r.out) > 0 { PushEof(r, data, index, eof); }
    hide Push, Covered, Taken, PrematureEnd, EndIsExact;
  }

  /** A batch latches the end exactly when some arrival carries it and the source ends below the edge. */
  lemma {:induction false} PushAllEnds(r: Reassembly, arrivals: seq<Arrival>, source: seq<byte>)
    requires Valid(r) && Bounded(r) && Matches(r, source) && Admissible(arrivals, Edge(r), source)
    requires EndIsExact(r, source) && Flagged(arrivals, source) && NoPremature(r, arrivals) && EndClearOfEdge(r, source)
    ensures PushAll(r, arrivals).Returned?
    ensures EndMoves(r, PushAll(r, arrivals).value, exists a <- arrivals :: a.eof, source)
    decreases |arrivals|
  {
    hide Push, Covered, Asked, PrematureEnd, EndIsExact, EndClearOfEdge, Matches, Bounded, Excerpt;
    PushAllCovers(r, arrivals, source);
    if arrivals != [] {
      var init, last := arrivals[..|arrivals| - 1], arrivals[|arrivals| - 1];
      PushAllCovers(r, init, source);
      PushAllEnds(r, init, source);
      PushEnds(PushAll(r, init).value, last.data, last.index, last.eof, source);
      assert arrivals == init + [last];
    }
  }

  /** Clear of the edge, two batches that span the same indices and agree on the end leave the very same state. */
  lemma OrderAndEndIrrelevant(r: Reassembly, first: seq<Arrival>, second: seq<Arrival>, source: seq<byte>)
    requires Valid(r) && Bounded(r) && Matches(r, source) && EndIsExact(r, source) && EndClearOfEdge(r, source)
    requires Admissible(first, Edge(r), source) && Admissible(second, Edge(r), source)
    requires Flagged(first, source) && Flagged(second, source) && NoPremature(r, first) && NoPremature(r, second)
    requires forall k: nat :: Asked(first, Edge(r), k) <==> Asked(second, Edge(r), k)
    requires (exists a <- first :: a.eof) <==> (exists a <- second :: a.eof)
    ensures PushAll(r, first).Returned? && PushAll(r, first) == PushAll(r, second)
  {
    OrderIrrelevant(r, first, second, source);
    PushAllEnds(r, first, source);
    PushAllEnds(r, second, source);
    hide PushAll, Asked, Admissible, Flagged, NoPremature;
  }

  /**
   At the edge it is not so: the bytes up to it with the end, or the same bytes and then the bare end, which the full
   window refuses.
   */
  lemma EdgeLosesEnd(r: Reassembly, source: seq<byte>)
    requires Valid(r) && Bounded(r) && Matches(r, source) && !EndClearOfEdge(r, source)
    ensures var rest := source[r.cur..];
            var whole := PushAll(r, [Arrival(rest, r.cur, true)]);
            var split := PushAll(r, [Arrival(rest, r.cur, false), Arrival([], |source|, true)]);
            whole.Returned? && split.Returned? && whole.value.eof && !split.value.eof
  {
    var rest := source[r.cur..];
    var (whole, part, end) := (Arrival(rest, r.cur, true), Arrival(rest, r.cur, false), Arrival([], |source|, true));
    assert [whole][..0] == [] && [part, end][..1] == [part] && [part][..0] == [];
    PushWithinWindow(r, rest, r.cur, true);
    PushWithinWindow(r, rest, r.cur, false);
    PushEof(r, rest, r.cur, true);
    PushEof(r, rest, r.cur, false);
    PushQuiet(r, rest, r.cur, false);
    PushCovers(r, rest, r.cur, false);
    FillsWindow(r, source);
    hide Trim, Overlay, Settle, Covered, Taken;
  }

  lemma FillsWindow(r: Reassembly, source: seq<byte>)
    requires Valid(r) && Bounded(r) && Matches(r, source) && |source| == Edge(r) && Room(r.out) > 0
    requires Push(r, source[r.cur..], r.cur, false).Returned?
    ensures Room(Push(r, source[r.cur..], r.cur, false).value.out) == 0
  {
    PushCovers(r, source[r.cur..], r.cur, false);
    PushQuiet(r, source[r.cur..], r.cur, false);
    FirstGap(r, source[r.cur..], r.cur, false, |source|);
    hide Push;
  }
}
