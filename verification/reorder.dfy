/** The reorder-and-flush discipline shared by `WriteCompressed`, `WriteDecompressed` and
    the decompressor's `JobEnd`: a dictionary of held blocks and the number of the next block
    to write. Each arriving block is added to the dictionary, and at most one block (the one
    numbered `next`, if held) is written per arrival; whatever is still held when the queue
    runs dry is written in ascending key order. */
module ReorderWriter {
  import opened Int32
  import opened LittleEndian
  import opened Blocks

  /** `dict`, `blockNumber`, and the blocks written so far, in write order. */
  datatype Writer = Writer(held: map<int, Block>, next: nat, written: seq<Block>)

  const Start: Writer := Writer(map[], 0, [])

  /** Block numbers strictly increase along the sequence. */
  predicate Ascending(s: seq<Block>) {
    forall i, j :: 0 <= i < j < |s| ==> s[i].number < s[j].number
  }

  /** No two blocks of the sequence share a number. */
  predicate DistinctNumbers(s: seq<Block>) {
    forall i, j :: 0 <= i < j < |s| ==> s[i].number != s[j].number
  }

  predicate NonNegativeNumbers(s: seq<Block>) {
    forall i :: 0 <= i < |s| ==> s[i].number >= 0
  }

  /** One iteration of the `while (outputQueue.Dequeue(...))` loop: `dict.Add` throws on a
      key it already holds; then an `if`, not a `while`, writes at most one block. */
  function Arrive(w: Writer, b: Block): (r: Result<Writer>)
    ensures r.Err? <==> b.number in w.held
    ensures r.Err? ==> r.error == DuplicateNumber(b.number)
    ensures r.Ok? ==> w.written <= r.value.written && |r.value.written| <= |w.written| + 1
  {
    if b.number in w.held then
      Err(DuplicateNumber(b.number))
    else
      var held := w.held[b.number := b];
      if w.next in held then
        Ok(Writer(held - {w.next}, w.next + 1, w.written + [held[w.next]]))
      else
        Ok(Writer(held, w.next, w.written))
  }

  /** The loop over all arrivals, stopping at the first exception, which names the number
      of one of the arrivals; blocks once written stay written. */
  function Drain(w: Writer, arrivals: seq<Block>): (r: Result<Writer>)
    ensures r.Err? ==> exists i :: 0 <= i < |arrivals| && r.error == DuplicateNumber(arrivals[i].number)
    ensures r.Ok? ==> w.written <= r.value.written
    decreases |arrivals|
  {
    if |arrivals| == 0 then
      Ok(w)
    else
      match Arrive(w, arrivals[0])
      case Err(e) => Err(e)
      case Ok(w1) => Drain(w1, arrivals[1..])
  }

  /** The least element of a non-empty set of keys. */
  function Least(keys: set<int>): (m: int)
    requires keys != {}
    ensures m in keys && forall k :: k in keys ==> m <= k
  {
    LeastExists(keys);
    var m :| m in keys && forall k :: k in keys ==> m <= k;
    m
  }

  lemma {:induction false} LeastExists(keys: set<int>)
    requires keys != {}
    ensures exists m :: m in keys && forall k :: k in keys ==> m <= k
    decreases |keys|
  {
    var x := PickKey(keys);
    var rest := keys - {x};
    assert |rest| == |keys| - 1;
    if rest == {} {
      assert keys == {x};
      assert forall k :: k in keys ==> x <= k;
    } else {
      LeastExists(rest);
      var m :| m in rest && forall k :: k in rest ==> m <= k;
      var least := if x < m then x else m;
      forall k | k in keys
        ensures least <= k
      {
        if k != x {
          assert k in rest;
        }
      }
      assert least in keys && forall k :: k in keys ==> least <= k;
    }
  }

  lemma PickKey(keys: set<int>) returns (x: int)
    requires keys != {}
    ensures x in keys
  {
    NoMemberIsEmpty(keys);
    x :| x in keys;
  }

  /** Set extensionality: a set without members is the empty set. */
  lemma NoMemberIsEmpty(keys: set<int>)
    ensures (forall y :: y !in keys) ==> keys == {}
  {
    if forall y :: y !in keys {
      assert forall y :: y in keys <==> y in {};
    }
  }

  /** `dict.OrderBy(x => x.Key)`: the keys in ascending order. */
  function SortedKeys(keys: set<int>): (s: seq<int>)
    ensures forall i, j :: 0 <= i < j < |s| ==> s[i] < s[j]
    ensures forall k :: k in keys <==> k in s
    ensures |s| == |keys|
    decreases |keys|
  {
    if keys == {} then
      []
    else
      var m := Least(keys);
      [m] + SortedKeys(keys - {m})
  }

  /** The `foreach` after the loop: the held blocks in ascending key order. */
  function Flush(held: map<int, Block>): (s: seq<Block>)
    ensures |s| == |held.Keys|
  {
    var keys := SortedKeys(held.Keys);
    seq(|keys|, i requires 0 <= i < |keys| => held[keys[i]])
  }

  /** The blocks in the order the writer emits them, or the exception it raises. */
  function Reorder(arrivals: seq<Block>): (r: Result<seq<Block>>)
    ensures r.Err? ==> exists i :: 0 <= i < |arrivals| && r.error == DuplicateNumber(arrivals[i].number)
  {
    match Drain(Start, arrivals)
    case Err(e) => Err(e)
    case Ok(w) => Ok(w.written + Flush(w.held))
  }

  /** `WriteDecompressed` / the decompressor's `JobEnd`: each payload written raw, with no
      framing, in emission order. */
  function WriteDecompressed(arrivals: seq<Block>): (r: Result<seq<byte>>)
    ensures r.Err? ==> exists i :: 0 <= i < |arrivals| && r.error == DuplicateNumber(arrivals[i].number)
  {
    match Reorder(arrivals)
    case Err(e) => Err(e)
    case Ok(out) => Ok(Concat(out))
  }

  // ---------------------------------------------------------------------------
  // Ordering

  /** What the writer state says about the blocks that have arrived so far. */
  ghost predicate Inv(w: Writer, arrived: seq<Block>) {
    && w.next == |w.written|
    && |w.written| + |w.held.Keys| == |arrived|
    && (forall i :: 0 <= i < |w.written| ==> w.written[i].number == i && w.written[i] in arrived)
    && (forall k :: k in w.held ==> w.held[k].number == k && k >= w.next && w.held[k] in arrived)
    && (forall j :: 0 <= j < |arrived| ==>
          (0 <= arrived[j].number < w.next && w.written[arrived[j].number] == arrived[j])
          || (arrived[j].number in w.held && w.held[arrived[j].number] == arrived[j]))
  }

  lemma WrittenHaveArrived(w: Writer, arrived: seq<Block>, n: int)
    requires Inv(w, arrived)
    requires 0 <= n < w.next
    ensures exists j :: 0 <= j < |arrived| && arrived[j].number == n
  {
    var x := w.written[n];
    var j :| 0 <= j < |arrived| && arrived[j] == x;
  }

  lemma ArriveKeepsInv(w: Writer, arrived: seq<Block>, b: Block)
    requires Inv(w, arrived)
    requires b.number >= 0
    requires forall j :: 0 <= j < |arrived| ==> arrived[j].number != b.number
    ensures Arrive(w, b).Ok?
    ensures Inv(Arrive(w, b).value, arrived + [b])
  {
    assert b.number !in w.held;
    assert b.number >= w.next by {
      if b.number < w.next {
        WrittenHaveArrived(w, arrived, b.number);
      }
    }
    var held := w.held[b.number := b];
    if w.next in held {
      ArriveEmits(w, arrived, b);
    } else {
      ArriveHolds(w, arrived, b);
    }
  }

  /** An arrival that completes the next expected block writes it. */
  lemma ArriveEmits(w: Writer, arrived: seq<Block>, b: Block)
    requires Inv(w, arrived)
    requires b.number >= w.next && b.number !in w.held && w.next in w.held[b.number := b]
    ensures Inv(Writer(w.held[b.number := b] - {w.next}, w.next + 1,
                       w.written + [w.held[b.number := b][w.next]]), arrived + [b])
  {
    var held := w.held[b.number := b];
    var e := held[w.next];
    var w' := Writer(held - {w.next}, w.next + 1, w.written + [e]);
    var all := arrived + [b];
    assert |held.Keys| == |w.held.Keys| + 1 by {
      assert held.Keys == w.held.Keys + {b.number};
    }
    assert w'.held.Keys == held.Keys - {w.next};
    forall j | 0 <= j < |all|
      ensures (0 <= all[j].number < w'.next && w'.written[all[j].number] == all[j])
           || (all[j].number in w'.held && w'.held[all[j].number] == all[j])
    {
      if j == |arrived| {
        assert all[j] == b;
      } else {
        assert all[j] == arrived[j];
      }
    }
  }

  /** An arrival that does not complete the next expected block is held. */
  lemma ArriveHolds(w: Writer, arrived: seq<Block>, b: Block)
    requires Inv(w, arrived)
    requires b.number >= w.next && b.number !in w.held && w.next !in w.held[b.number := b]
    ensures Inv(Writer(w.held[b.number := b], w.next, w.written), arrived + [b])
  {
    var held := w.held[b.number := b];
    var w' := Writer(held, w.next, w.written);
    var all := arrived + [b];
    assert |held.Keys| == |w.held.Keys| + 1 by {
      assert held.Keys == w.held.Keys + {b.number};
    }
    forall j | 0 <= j < |all|
      ensures (0 <= all[j].number < w'.next && w'.written[all[j].number] == all[j])
           || (all[j].number in w'.held && w'.held[all[j].number] == all[j])
    {
      if j == |arrived| {
        assert all[j] == b;
      } else {
        assert all[j] == arrived[j];
      }
    }
  }

  lemma {:induction false} DrainKeepsInv(w: Writer, arrived: seq<Block>, rest: seq<Block>)
    requires Inv(w, arrived)
    requires DistinctNumbers(arrived + rest) && NonNegativeNumbers(rest)
    ensures Drain(w, rest).Ok?
    ensures Inv(Drain(w, rest).value, arrived + rest)
    decreases |rest|
  {
    if |rest| > 0 {
      var all := arrived + rest;
      forall j | 0 <= j < |arrived|
        ensures arrived[j].number != rest[0].number
      {
        assert all[j] == arrived[j] && all[|arrived|] == rest[0];
      }
      ArriveKeepsInv(w, arrived, rest[0]);
      assert arrived + [rest[0]] + rest[1..] == all;
      DrainKeepsInv(Arrive(w, rest[0]).value, arrived + [rest[0]], rest[1..]);
    }
  }

  lemma FlushAt(held: map<int, Block>, i: nat)
    requires i < |Flush(held)|
    ensures SortedKeys(held.Keys)[i] in held
    ensures Flush(held)[i] == held[SortedKeys(held.Keys)[i]]
  {
  }

  /** The final flush writes the held blocks in ascending key order. */
  lemma FlushAscending(held: map<int, Block>, next: nat)
    requires forall k :: k in held ==> held[k].number == k && k >= next
    ensures Ascending(Flush(held))
    ensures forall i :: 0 <= i < |Flush(held)| ==> Flush(held)[i].number >= next
  {
    var keys := SortedKeys(held.Keys);
    var flushed := Flush(held);
    forall i | 0 <= i < |flushed|
      ensures flushed[i].number == keys[i] >= next
    {
      FlushAt(held, i);
    }
  }

  /** The final flush writes exactly the held blocks. */
  lemma FlushContents(held: map<int, Block>)
    requires forall k :: k in held ==> held[k].number == k
    ensures forall k :: k in held ==> held[k] in Flush(held)
    ensures forall x :: x in Flush(held) ==> x.number in held && held[x.number] == x
  {
    forall k | k in held
      ensures held[k] in Flush(held)
    {
      FlushHas(held, k);
    }
    forall x | x in Flush(held)
      ensures x.number in held && held[x.number] == x
    {
      FlushFrom(held, x);
    }
  }

  lemma FlushHas(held: map<int, Block>, k: int)
    requires k in held
    ensures held[k] in Flush(held)
  {
    var keys := SortedKeys(held.Keys);
    var i :| 0 <= i < |keys| && keys[i] == k;
    FlushAt(held, i);
  }

  lemma FlushFrom(held: map<int, Block>, x: Block)
    requires forall k :: k in held ==> held[k].number == k
    requires x in Flush(held)
    ensures x.number in held && held[x.number] == x
  {
    var flushed := Flush(held);
    var i :| 0 <= i < |flushed| && flushed[i] == x;
    FlushAt(held, i);
  }

  /** The writer's final output, read off an invariant state. */
  lemma FinalOutput(w: Writer, arrivals: seq<Block>)
    requires Inv(w, arrivals)
    ensures Ascending(w.written + Flush(w.held))
    ensures |w.written + Flush(w.held)| == |arrivals|
    ensures forall b :: b in w.written + Flush(w.held) <==> b in arrivals
  {
    FlushAscending(w.held, w.next);
    FlushContents(w.held);
    FinalAscending(w.written, Flush(w.held), w.next);
    FinalCovers(w, arrivals);
  }

  lemma FinalAscending(written: seq<Block>, flushed: seq<Block>, next: nat)
    requires next == |written|
    requires forall i :: 0 <= i < |written| ==> written[i].number == i
    requires Ascending(flushed)
    requires forall i :: 0 <= i < |flushed| ==> flushed[i].number >= next
    ensures Ascending(written + flushed)
  {
    var out := written + flushed;
    forall i, j | 0 <= i < j < |out|
      ensures out[i].number < out[j].number
    {
      if j < |written| {
      } else if i < |written| {
        assert out[j] == flushed[j - |written|];
      } else {
        assert out[i] == flushed[i - |written|] && out[j] == flushed[j - |written|];
      }
    }
  }

  lemma FinalCovers(w: Writer, arrivals: seq<Block>)
    requires Inv(w, arrivals)
    requires forall k :: k in w.held ==> w.held[k] in Flush(w.held)
    requires forall x :: x in Flush(w.held) ==> x.number in w.held && w.held[x.number] == x
    ensures forall b :: b in w.written + Flush(w.held) <==> b in arrivals
  {
    var flushed := Flush(w.held);
    forall b | b in arrivals
      ensures b in w.written + flushed
    {
      var j :| 0 <= j < |arrivals| && arrivals[j] == b;
      if 0 <= b.number < w.next && w.written[b.number] == b {
        assert (w.written + flushed)[b.number] == b;
      } else {
        assert b in flushed;
      }
    }
  }

  /** For distinct, non-negative block numbers the writer never throws and emits every
      arrival exactly once, in ascending number order, whatever the arrival order. */
  lemma {:induction false} ReorderSorts(arrivals: seq<Block>)
    requires DistinctNumbers(arrivals) && NonNegativeNumbers(arrivals)
    ensures Reorder(arrivals).Ok?
    ensures Ascending(Reorder(arrivals).value)
    ensures |Reorder(arrivals).value| == |arrivals|
    ensures forall b :: b in Reorder(arrivals).value <==> b in arrivals
  {
    assert Inv(Start, []);
    assert [] + arrivals == arrivals;
    DrainKeepsInv(Start, [], arrivals);
    FinalOutput(Drain(Start, arrivals).value, arrivals);
  }

  /** Each accepted arrival adds one block to those written or held. */
  lemma ArriveCounts(w: Writer, b: Block)
    requires Arrive(w, b).Ok?
    ensures |Arrive(w, b).value.written| + |Arrive(w, b).value.held.Keys| == |w.written| + |w.held.Keys| + 1
  {
    var held := w.held[b.number := b];
    assert held.Keys == w.held.Keys + {b.number};
    if w.next in held {
      assert (held - {w.next}).Keys == held.Keys - {w.next};
    }
  }

  lemma {:induction false} DrainCounts(w: Writer, arrivals: seq<Block>)
    requires Drain(w, arrivals).Ok?
    ensures |Drain(w, arrivals).value.written| + |Drain(w, arrivals).value.held.Keys|
         == |w.written| + |w.held.Keys| + |arrivals|
    decreases |arrivals|
  {
    if |arrivals| > 0 {
      ArriveCounts(w, arrivals[0]);
      DrainCounts(Arrive(w, arrivals[0]).value, arrivals[1..]);
    }
  }

  /** Whatever the numbers, a writer that does not throw writes one block per arrival. */
  lemma ReorderKeepsCount(arrivals: seq<Block>)
    requires Reorder(arrivals).Ok?
    ensures |Reorder(arrivals).value| == |arrivals|
  {
    DrainCounts(Start, arrivals);
  }

  // ---------------------------------------------------------------------------
  // Uniqueness of the ascending order

  /** Two ascending sequences with the same elements are equal. */
  lemma {:induction false} AscendingUnique(a: seq<Block>, b: seq<Block>)
    requires Ascending(a) && Ascending(b)
    requires forall x :: x in a <==> x in b
    ensures a == b
    decreases |a|
  {
    if |a| == 0 {
      if |b| > 0 {
        HeadsEqual(b, a);
        assert false;
      }
    } else {
      HeadsEqual(a, b);
      TailsSameElements(a, b);
      AscendingUnique(a[1..], b[1..]);
      assert a == [a[0]] + a[1..] && b == [b[0]] + b[1..];
    }
  }

  /** The first element of an ascending sequence has the least number of all. */
  lemma HeadsEqual(a: seq<Block>, b: seq<Block>)
    requires Ascending(a) && Ascending(b) && |a| > 0
    requires forall x :: x in a <==> x in b
    ensures |b| > 0 && a[0] == b[0]
  {
    assert a[0] in b;
    var j :| 0 <= j < |b| && b[j] == a[0];
    assert b[0] in a;
    var i :| 0 <= i < |a| && a[i] == b[0];
    assert j == 0;
  }

  lemma TailsSameElements(a: seq<Block>, b: seq<Block>)
    requires Ascending(a) && Ascending(b) && |a| > 0 && |b| > 0 && a[0] == b[0]
    requires forall x :: x in a <==> x in b
    ensures forall x :: x in a[1..] <==> x in b[1..]
  {
    forall x | x in a[1..]
      ensures x in b[1..]
    {
      InTail(a, b, x);
    }
    forall x | x in b[1..]
      ensures x in a[1..]
    {
      InTail(b, a, x);
    }
  }

  lemma InTail(a: seq<Block>, b: seq<Block>, x: Block)
    requires Ascending(a) && Ascending(b) && |a| > 0 && |b| > 0 && a[0] == b[0]
    requires x in a[1..] && x in b
    ensures x in b[1..]
  {
    var k :| 1 <= k < |a| && a[k] == x;
    var l :| 0 <= l < |b| && b[l] == x;
    assert l != 0;
    assert b[1..][l - 1] == x;
  }

  // ---------------------------------------------------------------------------
  // Permutations of a numbered sequence

  lemma {:induction false} DistinctCountAtMostOne(s: seq<Block>, x: Block)
    requires DistinctNumbers(s)
    ensures multiset(s)[x] <= 1
    decreases |s|
  {
    if |s| > 0 {
      assert s == [s[0]] + s[1..];
      assert DistinctNumbers(s[1..]) by {
        forall i, j | 0 <= i < j < |s[1..]|
          ensures s[1..][i].number != s[1..][j].number
        {
          assert s[1..][i] == s[i + 1] && s[1..][j] == s[j + 1];
        }
      }
      DistinctCountAtMostOne(s[1..], x);
      if x == s[0] {
        assert x !in s[1..];
      }
    }
  }

  lemma RepeatedCountsTwice(s: seq<Block>, i: nat, j: nat)
    requires i < j < |s| && s[i] == s[j]
    ensures multiset(s)[s[i]] >= 2
  {
    assert s == s[..j] + s[j..];
    assert s[i] == s[..j][i];
    assert s[j] == s[j..][0];
    assert multiset(s) == multiset(s[..j]) + multiset(s[j..]);
  }

  /** Any permutation of a sequence with distinct numbers has distinct numbers. */
  lemma PermutationKeepsDistinct(s: seq<Block>, t: seq<Block>)
    requires DistinctNumbers(t) && multiset(s) == multiset(t)
    ensures DistinctNumbers(s)
  {
    forall i, j | 0 <= i < j < |s|
      ensures s[i].number != s[j].number
    {
      if s[i] == s[j] {
        RepeatedCountsTwice(s, i, j);
        DistinctCountAtMostOne(t, s[i]);
      } else {
        assert s[i] in multiset(t) && s[j] in multiset(t);
        var k :| 0 <= k < |t| && t[k] == s[i];
        var l :| 0 <= l < |t| && t[l] == s[j];
      }
    }
  }

  /** Whatever order the blocks numbered 0, 1, ..., n-1 arrive in, the writer emits them
      as blocks 0, 1, ..., n-1. */
  lemma ReorderRestoresNumbering(numbered: seq<Block>, arrivals: seq<Block>)
    requires NumberedFromZero(numbered)
    requires multiset(arrivals) == multiset(numbered)
    ensures Reorder(arrivals) == Ok(numbered)
  {
    PermutationKeepsDistinct(arrivals, numbered);
    forall i | 0 <= i < |arrivals|
      ensures arrivals[i].number >= 0
    {
      assert arrivals[i] in multiset(numbered);
    }
    ReorderSorts(arrivals);
    forall x
      ensures x in Reorder(arrivals).value <==> x in numbered
    {
      assert x in arrivals <==> x in multiset(arrivals);
      assert x in numbered <==> x in multiset(numbered);
    }
    AscendingUnique(Reorder(arrivals).value, numbered);
  }

  /** `WriteDecompressed` of any arrival order of the reader's blocks writes the input back. */
  lemma WriteDecompressedRestoresInput(numbered: seq<Block>, arrivals: seq<Block>)
    requires NumberedFromZero(numbered)
    requires multiset(arrivals) == multiset(numbered)
    ensures WriteDecompressed(arrivals) == Ok(Concat(numbered))
  {
    ReorderRestoresNumbering(numbered, arrivals);
  }

  /** Draining two stretches of arrivals one after the other is draining them together. */
  lemma {:induction false} DrainAppend(w: Writer, pre: seq<Block>, post: seq<Block>)
    ensures Drain(w, pre + post) ==
      match Drain(w, pre)
      case Err(e) => Err(e)
      case Ok(v) => Drain(v, post)
    decreases |pre|
  {
    if |pre| == 0 {
      assert pre + post == post;
    } else {
      assert (pre + post)[0] == pre[0] && (pre + post)[1..] == pre[1..] + post;
      if Arrive(w, pre[0]).Ok? {
        DrainAppend(Arrive(w, pre[0]).value, pre[1..], post);
      }
    }
  }

  /** `dict.Add` throws on the second copy of a number while the first copy is still held,
      whatever arrived before and whatever would have arrived after. */
  lemma DuplicateOfHeldIsCaught(pre: seq<Block>, w: Writer, c: Block, post: seq<Block>)
    requires Drain(Start, pre) == Ok(w)
    requires c.number in w.held
    ensures Reorder(pre + [c] + post) == Err(DuplicateNumber(c.number))
  {
    assert pre + [c] + post == pre + ([c] + post);
    DrainAppend(Start, pre, [c] + post);
    assert ([c] + post)[0] == c;
  }

  /** A second copy of a number that has already been written passes `dict.Add`: it is held
      below `next`, never matches the `if` again, and the final flush writes it after the
      first copy, so the output carries the number twice. */
  lemma DuplicateOfWrittenIsRewritten(w: Writer, arrived: seq<Block>, c: Block, post: seq<Block>)
    requires Inv(w, arrived)
    requires 0 <= c.number < w.next
    ensures Arrive(w, c).Ok?
    ensures Drain(Arrive(w, c).value, post).Ok? ==>
      var v := Drain(Arrive(w, c).value, post).value;
      var out := v.written + Flush(v.held);
      w.written <= out && out[c.number].number == c.number && c in out[|w.written|..]
  {
    assert c.number !in w.held;
    assert w.written[c.number].number == c.number;
    RewrittenAfterWritten(w, c, post);
  }

  lemma RewrittenAfterWritten(w: Writer, c: Block, post: seq<Block>)
    requires c.number !in w.held && 0 <= c.number < w.next <= |w.written|
    requires w.written[c.number].number == c.number
    ensures Arrive(w, c).Ok?
    ensures Drain(Arrive(w, c).value, post).Ok? ==>
      var v := Drain(Arrive(w, c).value, post).value;
      var out := v.written + Flush(v.held);
      w.written <= out && out[c.number].number == c.number && c in out[|w.written|..]
  {
    var w1 := Arrive(w, c).value;
    assert c.number in w1.held && w1.held[c.number] == c && c.number < w1.next;
    if Drain(w1, post).Ok? {
      DrainKeepsLowHeld(w1, post, c.number);
      var v := Drain(w1, post).value;
      PrefixTrans(w.written, w1.written, v.written);
      HeldEndsInOutput(w.written, v, c.number);
    }
  }

  lemma PrefixTrans(a: seq<Block>, b: seq<Block>, c: seq<Block>)
    requires a <= b && b <= c
    ensures a <= c
  {
    assert a == b[..|a|] == c[..|b|][..|a|] == c[..|a|];
  }

  /** A block still held at the end comes out in the flush, after everything written. */
  lemma HeldEndsInOutput(prefix: seq<Block>, v: Writer, k: int)
    requires prefix <= v.written && k in v.held
    ensures prefix <= v.written + Flush(v.held)
    ensures v.held[k] in (v.written + Flush(v.held))[|prefix|..]
  {
    FlushHas(v.held, k);
    InLaterPart(prefix, v.written, Flush(v.held), v.held[k]);
  }

  /** A member of the part appended after `written` lies past any prefix of `written`. */
  lemma InLaterPart(prefix: seq<Block>, written: seq<Block>, later: seq<Block>, x: Block)
    requires prefix <= written && x in later
    ensures prefix <= written + later
    ensures x in (written + later)[|prefix|..]
  {
    var out := written + later;
    var i :| 0 <= i < |later| && later[i] == x;
    assert out[|written| + i] == x;
    assert out[|prefix|..][|written| - |prefix| + i] == x;
    PrefixTrans(prefix, written, out);
  }

  /** A block held below `next` is never written by the `if` again and never replaced. */
  lemma {:induction false} DrainKeepsLowHeld(w: Writer, arrivals: seq<Block>, k: int)
    requires k in w.held && k < w.next
    requires Drain(w, arrivals).Ok?
    ensures k in Drain(w, arrivals).value.held && Drain(w, arrivals).value.held[k] == w.held[k]
    ensures |w.written| <= |Drain(w, arrivals).value.written|
    decreases |arrivals|
  {
    if |arrivals| > 0 {
      var w1 := Arrive(w, arrivals[0]).value;
      assert k in w1.held && w1.held[k] == w.held[k] && k < w1.next;
      DrainKeepsLowHeld(w1, arrivals[1..], k);
    }
  }
}
