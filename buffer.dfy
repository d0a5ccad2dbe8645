/**
 * The byte FIFO of src/lhive_buffer.c: a chain of blocks from `head` to
 * `tail`.  `push` fills the tail block's free space and then appends one new
 * block holding the rest; `pop(n)` removes exactly the first `n` unread bytes,
 * freeing the blocks it empties except the last one, which it resets.
 * The Lua stack plumbing is abstracted away: arguments and results are plain
 * parameters.
 */
module ByteBuffer {
  import opened Common

  /** DEFAULT_BLOCK_SIZE: the smallest block the buffer allocates. */
  const DEFAULT_BLOCK_SIZE: nat := 256

  /**
   * A block of the chain: `size` bytes of storage, of which the first `cap`
   * have been written (`data`) and the first `idx` already read.
   */
  datatype Block = Block(size: nat, cap: nat, idx: nat, data: seq<byte>)

  ghost predicate BlockOk(b: Block)
  {
    b.idx <= b.cap <= b.size && |b.data| == b.cap && 0 < b.size
  }

  /** The written but not yet read bytes of a block. */
  function Unread(b: Block): seq<byte>
    requires b.idx <= b.cap <= |b.data|
  {
    b.data[b.idx..b.cap]
  }

  ghost predicate ChainOk(bs: seq<Block>)
  {
    forall i :: 0 <= i < |bs| ==> BlockOk(bs[i])
  }

  /** The unread bytes of the blocks from index `p` on, in chain order. */
  function Pending(bs: seq<Block>, p: nat): seq<byte>
    requires p <= |bs| && ChainOk(bs)
    decreases |bs| - p
  {
    if p == |bs| then [] else Unread(bs[p]) + Pending(bs, p + 1)
  }

  /** Two chains that agree from some point on have the same pending bytes from there. */
  lemma {:induction false} PendingSame(xs: seq<Block>, i: nat, ys: seq<Block>, j: nat)
    requires i <= |xs| && j <= |ys| && ChainOk(xs) && ChainOk(ys) && xs[i..] == ys[j..]
    ensures Pending(xs, i) == Pending(ys, j)
    decreases |xs| - i
  {
    if i < |xs| {
      assert xs[i] == xs[i..][0] == ys[j];
      assert xs[i + 1..] == xs[i..][1..] == ys[j + 1..];
      PendingSame(xs, i + 1, ys, j + 1);
    }
  }

  lemma {:induction false} PendingAppend(bs: seq<Block>, p: nat, b: Block)
    requires p <= |bs| && ChainOk(bs) && BlockOk(b)
    ensures ChainOk(bs + [b])
    ensures Pending(bs + [b], p) == Pending(bs, p) + Unread(b)
    decreases |bs| - p
  {
    assert ChainOk(bs + [b]);
    if p == |bs| {
      assert Pending(bs + [b], p + 1) == [];
    } else {
      PendingAppend(bs, p + 1, b);
    }
  }

  /** _buffer_block_new: an empty block with room for `sz` bytes. */
  function BlockNew(sz: nat): (b: Block)
    requires 0 < sz
    ensures BlockOk(b) && b.size == sz && Unread(b) == []
  {
    Block(sz, 0, 0, [])
  }

  /** The larger of the rest of a push and DEFAULT_BLOCK_SIZE: the size of the new tail block. */
  function NewBlockSize(rest: nat): (sz: nat)
    ensures sz >= rest && sz >= DEFAULT_BLOCK_SIZE
    ensures sz == rest || sz == DEFAULT_BLOCK_SIZE
  {
    if rest > DEFAULT_BLOCK_SIZE then rest else DEFAULT_BLOCK_SIZE
  }

  /** The number of bytes of `str` that fit in the free space of the tail block. */
  function TailTake(bs: seq<Block>, str: seq<byte>): (c: nat)
    requires 0 < |bs| && ChainOk(bs)
    ensures c <= |str|
  {
    var t := bs[|bs| - 1];
    var room := t.size - t.cap;
    if |str| < room then |str| else room
  }

  /** The chain after the first step of a push: the tail block takes TailTake(bs, str) bytes. */
  function FillTail(bs: seq<Block>, str: seq<byte>): (r: seq<Block>)
    requires 0 < |bs| && ChainOk(bs)
  {
    var t := bs[|bs| - 1];
    var c := TailTake(bs, str);
    if t.cap < t.size then bs[..|bs| - 1] + [t.(cap := t.cap + c, data := t.data + str[..c])]
    else bs
  }

  /**
   * The chain after pushing `str`: the tail block takes as many bytes as it
   * has room for, and a non-empty rest goes to one new block.
   */
  function PushChain(bs: seq<Block>, str: seq<byte>): (r: seq<Block>)
    requires 0 < |bs| && ChainOk(bs)
  {
    if str == [] then bs
    else
      var c := TailTake(bs, str);
      var front := FillTail(bs, str);
      if |str| == c then front
      else front + [Block(NewBlockSize(|str| - c), |str| - c, 0, str[c..])]
  }

  /** Filling the tail block appends the bytes it takes and leaves the other blocks alone. */
  lemma FillTailAppends(bs: seq<Block>, str: seq<byte>)
    requires 0 < |bs| && ChainOk(bs)
    ensures var r := FillTail(bs, str);
            && ChainOk(r) && |r| == |bs| && r[..|bs| - 1] == bs[..|bs| - 1]
            && Pending(r, 0) == Pending(bs, 0) + str[..TailTake(bs, str)]
  {
    var t := bs[|bs| - 1];
    var c := TailTake(bs, str);
    var front := bs[..|bs| - 1];
    assert bs == front + [t];
    if t.cap < t.size {
      var t' := t.(cap := t.cap + c, data := t.data + str[..c]);
      PendingAppend(front, 0, t);
      PendingAppend(front, 0, t');
      assert Unread(t') == Unread(t) + str[..c];
    } else {
      assert str[..c] == [];
    }
  }

  /**
   * Pushing appends exactly `str` to the pending bytes, keeps every block
   * but the tail as it was, and adds at most one block.
   */
  lemma PushChainAppends(bs: seq<Block>, str: seq<byte>)
    requires 0 < |bs| && ChainOk(bs)
    ensures var r := PushChain(bs, str);
            && ChainOk(r) && |bs| <= |r| <= |bs| + 1
            && r[..|bs| - 1] == bs[..|bs| - 1]
            && Pending(r, 0) == Pending(bs, 0) + str
  {
    if str != [] {
      var c := TailTake(bs, str);
      FillTailAppends(bs, str);
      if |str| != c {
        NewTailAppends(FillTail(bs, str), str[c..]);
        assert str == str[..c] + str[c..];
      } else {
        assert str[..c] == str;
      }
    }
  }

  /** The block a push appends for the `rest` of its string adds exactly `rest`. */
  lemma NewTailAppends(front: seq<Block>, rest: seq<byte>)
    requires 0 < |front| && ChainOk(front)
    ensures var r := front + [Block(NewBlockSize(|rest|), |rest|, 0, rest)];
            && ChainOk(r) && r[..|front|] == front
            && Pending(r, 0) == Pending(front, 0) + rest
  {
    PendingAppend(front, 0, Block(NewBlockSize(|rest|), |rest|, 0, rest));
  }

  /** A block after `n` more of its bytes have been read. */
  function Advance(b: Block, n: nat): Block
  {
    b.(idx := b.idx + n)
  }

  /** The block an exact pop leaves in place of the last one: nothing written, nothing read. */
  function Reset(b: Block): Block
  {
    b.(idx := 0, cap := 0, data := [])
  }

  /**
   * The loop of `_lbuffer_pop` from block `p` on: the bytes taken and the
   * chain that remains.  A block that is emptied exactly is freed, unless it
   * is the last one, which is reset instead.
   */
  function PopFrom(bs: seq<Block>, p: nat, n: nat): (res: (seq<byte>, seq<Block>))
    requires p < |bs| && ChainOk(bs) && 0 < n <= |Pending(bs, p)|
    decreases |bs| - p
  {
    var b := bs[p];
    var sz := b.cap - b.idx;
    if n < sz then (b.data[b.idx..b.idx + n], bs[p := Advance(b, n)][p..])
    else if n == sz then
      if p + 1 == |bs| then (Unread(b), bs[p := Reset(b)][p..]) else (Unread(b), bs[p + 1..])
    else
      PendingStep(bs, p);
      var rest := PopFrom(bs, p + 1, n - sz);
      (Unread(b) + rest.0, rest.1)
  }

  /** The facts about a chain that remains after a pop, relative to the old chain and its pending bytes. */
  ghost predicate PoppedTo(bs: seq<Block>, r: seq<Block>, rest: seq<byte>)
  {
    && ChainOk(r) && 0 < |r| <= |bs|
    && Pending(r, 0) == rest
    && r[1..] == bs[|bs| - |r| + 1..]
    && r[|r| - 1].size == bs[|bs| - 1].size
  }

  /** The last block of the chain replaced by `b` still satisfies PoppedTo. */
  lemma PopLeaf(bs: seq<Block>, p: nat, b: Block)
    requires p < |bs| && ChainOk(bs) && BlockOk(b) && b.size == bs[p].size
    ensures PoppedTo(bs, bs[p := b][p..], Unread(b) + Pending(bs, p + 1))
  {
    var r := bs[p := b][p..];
    assert r[1..] == bs[p + 1..];
    PendingSame(r, 1, bs, p + 1);
  }

  /** One step of Pending; past the last block nothing is pending. */
  lemma PendingStep(bs: seq<Block>, p: nat)
    requires p < |bs| && ChainOk(bs)
    ensures Pending(bs, p) == Unread(bs[p]) + Pending(bs, p + 1)
    ensures p + 1 == |bs| ==> Pending(bs, p) == Unread(bs[p])
  {
  }

  lemma SplitAt(d: seq<byte>, i: nat, j: nat, k: nat)
    requires i <= j <= k <= |d|
    ensures d[i..k] == d[i..j] + d[j..k]
  {
  }

  lemma Halves(u: seq<byte>, w: seq<byte>)
    ensures (u + w)[..|u|] == u && (u + w)[|u|..] == w
  {
  }

  /** Cutting a concatenation after its first part and `k` more elements. */
  lemma CutAfter(u: seq<byte>, w: seq<byte>, k: nat)
    requires k <= |w|
    ensures (u + w)[..|u| + k] == u + w[..k] && (u + w)[|u| + k..] == w[k..]
  {
  }

  /** Block `p` seen as its first `n` unread bytes followed by everything after them. */
  lemma PendingCut(bs: seq<Block>, p: nat, n: nat)
    requires p < |bs| && ChainOk(bs) && 0 < n < bs[p].cap - bs[p].idx
    ensures Pending(bs, p) == bs[p].data[bs[p].idx..bs[p].idx + n] + (Unread(Advance(bs[p], n)) + Pending(bs, p + 1))
  {
    var b := bs[p];
    PendingStep(bs, p);
    SplitAt(b.data, b.idx, b.idx + n, b.cap);
    AppendAssoc(b.data[b.idx..b.idx + n], Unread(Advance(b, n)), Pending(bs, p + 1));
  }

  /** A pop that ends inside block `p`: the block's read index advances by `n`. */
  lemma PopWithin(bs: seq<Block>, p: nat, n: nat)
    requires p < |bs| && ChainOk(bs) && 0 < n < bs[p].cap - bs[p].idx
    ensures bs[p].data[bs[p].idx..bs[p].idx + n] == Pending(bs, p)[..n]
    ensures PoppedTo(bs, bs[p := Advance(bs[p], n)][p..], Pending(bs, p)[n..])
  {
    var b := bs[p];
    PendingCut(bs, p, n);
    Halves(b.data[b.idx..b.idx + n], Unread(Advance(b, n)) + Pending(bs, p + 1));
    PopLeaf(bs, p, Advance(b, n));
  }

  /** A pop that empties the last block exactly: the block is reset. */
  lemma PopExactLast(bs: seq<Block>, p: nat)
    requires p + 1 == |bs| && ChainOk(bs)
    ensures PoppedTo(bs, bs[p := Reset(bs[p])][p..], Pending(bs, p + 1))
  {
    PopLeaf(bs, p, Reset(bs[p]));
    assert Pending(bs, p + 1) == [];
  }

  /** A pop that empties a block other than the last exactly: the block is freed. */
  lemma PopExactFree(bs: seq<Block>, p: nat)
    requires p + 1 < |bs| && ChainOk(bs)
    ensures PoppedTo(bs, bs[p + 1..], Pending(bs, p + 1))
  {
    var r := bs[p + 1..];
    assert r[1..] == bs[p + 2..];
    PendingSame(r, 0, bs, p + 1);
  }

  /** A pop that ends exactly at the end of block `p`. */
  lemma PopExact(bs: seq<Block>, p: nat)
    requires p < |bs| && ChainOk(bs)
    ensures var u := Unread(bs[p]);
            && Pending(bs, p)[..|u|] == u
            && (p + 1 == |bs| ==> PoppedTo(bs, bs[p := Reset(bs[p])][p..], Pending(bs, p)[|u|..]))
            && (p + 1 < |bs| ==> PoppedTo(bs, bs[p + 1..], Pending(bs, p)[|u|..]))
  {
    PendingStep(bs, p);
    Halves(Unread(bs[p]), Pending(bs, p + 1));
    if p + 1 == |bs| {
      PopExactLast(bs, p);
    } else {
      PopExactFree(bs, p);
    }
  }

  /** A pop of `n` bytes that goes past block `p`: its unread bytes, then `n - sz` from the next blocks. */
  lemma PopBeyond(bs: seq<Block>, p: nat, n: nat)
    requires p < |bs| && ChainOk(bs)
    requires bs[p].cap - bs[p].idx < n <= |Pending(bs, p)|
    ensures var sz := bs[p].cap - bs[p].idx;
            && p + 1 < |bs| && n - sz <= |Pending(bs, p + 1)|
            && Pending(bs, p)[..n] == Unread(bs[p]) + Pending(bs, p + 1)[..n - sz]
            && Pending(bs, p)[n..] == Pending(bs, p + 1)[n - sz..]
  {
    PendingStep(bs, p);
    CutAfter(Unread(bs[p]), Pending(bs, p + 1), n - (bs[p].cap - bs[p].idx));
  }

  /**
   * Popping `n` bytes takes exactly the first `n` pending bytes, leaves the
   * rest pending, and never frees the last block: the remaining chain is a
   * non-empty suffix of the old one whose first block alone may have changed
   * and whose last block keeps its size.
   */
  lemma PopTakesPrefix(bs: seq<Block>, p: nat, n: nat)
    requires p < |bs| && ChainOk(bs) && 0 < n <= |Pending(bs, p)|
    ensures PopFrom(bs, p, n).0 == Pending(bs, p)[..n]
    ensures PoppedTo(bs, PopFrom(bs, p, n).1, Pending(bs, p)[n..])
  {
    var q: nat, m: nat, taken: seq<byte> := p, n, [];
    PopWalkStart(bs, p, n);
    while bs[q].cap - bs[q].idx < m
      invariant PopWalk(bs, p, n, q, m, taken)
      decreases |bs| - q
    {
      PopWalkStep(bs, p, n, q, m, taken);
      q, m, taken := q + 1, m - (bs[q].cap - bs[q].idx), taken + Unread(bs[q]);
    }
    PopWalkEnd(bs, p, n, q, m, taken);
  }

  /**
   * Part way through a pop of `n` bytes from block `p`: `taken` bytes are
   * collected and `m` remain to be taken from block `q` on.
   */
  ghost predicate PopWalk(bs: seq<Block>, p: nat, n: nat, q: nat, m: nat, taken: seq<byte>)
  {
    && p <= q < |bs| && ChainOk(bs) && 0 < n <= |Pending(bs, p)| && 0 < m <= |Pending(bs, q)|
    && PopFrom(bs, p, n) == (taken + PopFrom(bs, q, m).0, PopFrom(bs, q, m).1)
    && Pending(bs, p)[..n] == taken + Pending(bs, q)[..m]
    && Pending(bs, p)[n..] == Pending(bs, q)[m..]
  }

  lemma PopWalkStart(bs: seq<Block>, p: nat, n: nat)
    requires p < |bs| && ChainOk(bs) && 0 < n <= |Pending(bs, p)|
    ensures PopWalk(bs, p, n, p, n, [])
  {
    assert [] + PopFrom(bs, p, n).0 == PopFrom(bs, p, n).0;
    assert [] + Pending(bs, p)[..n] == Pending(bs, p)[..n];
  }

  /** Taking all the unread bytes of block `q` and moving on to block `q + 1`. */
  lemma PopWalkStep(bs: seq<Block>, p: nat, n: nat, q: nat, m: nat, taken: seq<byte>)
    requires PopWalk(bs, p, n, q, m, taken) && bs[q].cap - bs[q].idx < m
    ensures PopWalk(bs, p, n, q + 1, m - (bs[q].cap - bs[q].idx), taken + Unread(bs[q]))
  {
    var u := Unread(bs[q]);
    var m' := m - (bs[q].cap - bs[q].idx);
    PopBeyond(bs, q, m);
    AppendAssoc(taken, u, PopFrom(bs, q + 1, m').0);
    AppendAssoc(taken, u, Pending(bs, q + 1)[..m']);
  }

  /** The pop stops in block `q`. */
  lemma PopWalkEnd(bs: seq<Block>, p: nat, n: nat, q: nat, m: nat, taken: seq<byte>)
    requires PopWalk(bs, p, n, q, m, taken) && m <= bs[q].cap - bs[q].idx
    ensures PopFrom(bs, p, n).0 == Pending(bs, p)[..n]
    ensures PoppedTo(bs, PopFrom(bs, p, n).1, Pending(bs, p)[n..])
  {
    if m < bs[q].cap - bs[q].idx {
      PopWithin(bs, q, m);
    } else {
      PopExact(bs, q);
    }
  }

  /**
   * The block walk of `_lbuffer_pop`: starting at the head it collects `n`
   * bytes block by block, advancing the read index of the block where it
   * stops, resetting the last block or freeing the emptied ones; the result
   * is the bytes and the chain from the new head on.
   */
  method TakeBytes(bs: seq<Block>, n0: nat) returns (out: seq<byte>, rest: seq<Block>)
    requires 0 < |bs| && ChainOk(bs) && 0 < n0 <= |Pending(bs, 0)|
    ensures (out, rest) == PopFrom(bs, 0, n0)
  {
    var chain := bs;
    var n := n0;
    out := [];
    var p := 0;
    while p < |chain|
      invariant chain == bs
      invariant 0 <= p < |chain| && 0 < n <= |Pending(chain, p)|
      invariant out + PopFrom(chain, p, n).0 == PopFrom(bs, 0, n0).0
      invariant PopFrom(chain, p, n).1 == PopFrom(bs, 0, n0).1
      decreases |chain| - p
    {
      var b := chain[p];
      var sz := b.cap - b.idx;
      if n < sz {
        out := out + b.data[b.idx..b.idx + n];
        chain := chain[p := Advance(b, n)];
        break;
      } else {
        ghost var before := out;
        out := out + b.data[b.idx..b.cap];
        n := n - sz;
        if n <= 0 {
          if p + 1 == |chain| {
            chain := chain[p := Reset(b)];
          } else {
            p := p + 1;
          }
          break;
        }
        PopBeyond(chain, p, n + sz);
        AppendAssoc(before, Unread(b), PopFrom(chain, p + 1, n).0);
      }
      p := p + 1;
    }
    rest := chain[p..];
  }

  class BufferState {
    /** all_size: the number of unread bytes. */
    var allSize: nat
    /** The block chain: `blocks[0]` is `head`, the last element `tail`. */
    var blocks: seq<Block>

    /** The bytes that have been pushed and not yet popped, oldest first. */
    ghost function Contents(): seq<byte>
      reads this
      requires ChainOk(blocks)
    {
      Pending(blocks, 0)
    }

    ghost predicate Valid()
      reads this
    {
      0 < |blocks| && ChainOk(blocks) && allSize == |Contents()|
    }

    /** _lhive_buffer_create: one empty block of DEFAULT_BLOCK_SIZE bytes. */
    constructor ()
      ensures Valid() && Contents() == [] && allSize == 0
      ensures blocks == [BlockNew(DEFAULT_BLOCK_SIZE)]
    {
      allSize := 0;
      blocks := [BlockNew(DEFAULT_BLOCK_SIZE)];
      new;
      assert Pending(blocks, 1) == [];
    }

    /** _lbuffer_size: the total of unread bytes. */
    function Size(): (r: nat)
      reads this
      requires Valid()
      ensures r == |Contents()|
    {
      allSize
    }

    /**
     * _lbuffer_push: an empty string changes nothing; otherwise the bytes
     * first fill the tail block's free space and what is left goes to one new
     * tail block of `max(rest, DEFAULT_BLOCK_SIZE)` bytes.
     */
    method Push(str: seq<byte>)
      requires Valid()
      modifies this
      ensures Valid()
      ensures blocks == PushChain(old(blocks), str)
      ensures Contents() == old(Contents()) + str
      ensures allSize == old(allSize) + |str|
    {
      PushChainAppends(blocks, str);
      if |str| == 0 {
        return;
      }
      var s := str;
      var last := |blocks| - 1;
      var bp := blocks[last];
      if bp.cap < bp.size {
        var n := bp.size - bp.cap;
        var c := if |s| < n then |s| else n;
        blocks := blocks[last := bp.(cap := bp.cap + c, data := bp.data + s[..c])];
        s := s[c..];
        allSize := allSize + c;
      }
      assert blocks == FillTail(old(blocks), str);
      assert s == str[TailTake(old(blocks), str)..];
      if |s| == 0 {
        return;
      }
      var blockSz := NewBlockSize(|s|);
      var newBp := BlockNew(blockSz).(cap := |s|, data := s);
      blocks := blocks + [newBp];
      allSize := allSize + |s|;
    }

    /**
     * _lbuffer_pop: `n` defaults to all_size.  It fails (None) and changes
     * nothing when `n <= 0`, the buffer is empty or `n > all_size`; otherwise
     * it returns exactly the first `n` unread bytes, frees the blocks it
     * empties and resets the last block instead of freeing it.
     */
    method Pop(arg: Option<int>) returns (r: Option<seq<byte>>)
      requires Valid()
      modifies this
      ensures Valid()
      ensures var n := if arg.Some? then arg.value else old(allSize) as int;
              r.None? <==> (n <= 0 || old(allSize) == 0 || n > old(allSize))
      ensures r.None? ==> blocks == old(blocks) && allSize == old(allSize)
      ensures r.Some? ==>
                var n := if arg.Some? then arg.value else old(allSize) as int;
                && 0 < n <= old(allSize)
                && r.value == PopFrom(old(blocks), 0, n).0 && blocks == PopFrom(old(blocks), 0, n).1
                && r.value == old(Contents())[..n]
                && Contents() == old(Contents())[n..]
                && allSize == old(allSize) - n
                && 0 < |blocks| <= |old(blocks)| && blocks[1..] == old(blocks)[|old(blocks)| - |blocks| + 1..]
                && blocks[|blocks| - 1].size == old(blocks)[|old(blocks)| - 1].size
      ensures arg.None? && old(allSize) > 0 ==> r == Some(old(Contents())) && Contents() == [] && allSize == 0
    {
      var all := allSize;
      var n: int := if arg.Some? then arg.value else all as int;
      var rawN := n;
      if n <= 0 || all == 0 {
        return None;
      } else if n > all {
        return None;
      }
      PopTakesPrefix(blocks, 0, rawN);
      assert rawN == |Contents()| ==> Contents()[..rawN] == Contents();
      var out, rest := TakeBytes(blocks, rawN);
      blocks := rest;
      allSize := allSize - rawN;
      r := Some(out);
    }
  }
}
