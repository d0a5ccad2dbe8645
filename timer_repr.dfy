/**
 * The corrected timer lists represent the wheel.
 *
 * With _list_append resetting the appended node's `next` to NULL, the
 * linked lists of TimerLinks hold, bucket by bucket, exactly the node
 * sequences of TimerWheel: inserting, dispatching and cascading keep the
 * two in step.  So every tick dispatches exactly the nodes TimerWheel
 * says are due, and from a placed wheel each of them is due now.
 */
module TimerRepr {
  import opened Common
  import opened TimerWheel
  import opened TimerLinks

  /** Addresses of the nodes of each bucket, head first. */
  type Ids = map<Bucket, seq<nat>>

  /** The address after position `k` of a chain: the next one, NULL after the last. */
  function NextOf(ids: seq<nat>, k: nat): Option<nat>
  {
    if k + 1 < |ids| then Some(ids[k + 1]) else None
  }

  /** The first address of a chain, NULL when it is empty. */
  function HeadOf(ids: seq<nat>): Option<nat>
  {
    if ids == [] then None else Some(ids[0])
  }

  /** The head and tail pointers of a chain. */
  function Ends(ids: seq<nat>): LList
  {
    if ids == [] then LList(None, None) else LList(Some(ids[0]), Some(ids[|ids| - 1]))
  }

  /** The nodes at `ids` hold `ns` in order, each linked to the next and the last to NULL. */
  ghost predicate Linked(heap: map<nat, LNode>, ids: seq<nat>, ns: seq<Node>)
  {
    && |ids| == |ns|
    && (forall k :: 0 <= k < |ids| ==> ids[k] in heap)
    && (forall k {:trigger heap[ids[k]]} :: 0 <= k < |ids| ==> heap[ids[k]] == LNode(ns[k], NextOf(ids, k)))
  }

  /** No address occurs twice in a chain. */
  ghost predicate Distinct(ids: seq<nat>)
  {
    forall i, j :: 0 <= i < j < |ids| ==> ids[i] != ids[j]
  }

  /** The addresses of bucket `b`. */
  function IdsOf(ids: Ids, b: Bucket): seq<nat>
  {
    if b in ids then ids[b] else []
  }

  /** No address is listed twice, in one bucket or in two. */
  ghost predicate Disjoint(ids: Ids)
  {
    forall b, b', i, j ::
      0 <= i < |IdsOf(ids, b)| && 0 <= j < |IdsOf(ids, b')| && (b != b' || i != j) ==>
      IdsOf(ids, b)[i] != IdsOf(ids, b')[j]
  }

  /** Address `x` is in no list. */
  ghost predicate Unlisted(ids: Ids, x: nat)
  {
    forall b, k :: 0 <= k < |IdsOf(ids, b)| ==> IdsOf(ids, b)[k] != x
  }

  /**
   * Bucket `b` of `lw` represents bucket `b` of `w` through `ids`: its
   * head and tail are the ends of its chain, and the chain is linked
   * through the heap and holds the bucket's nodes; a bucket that does not
   * exist lists nothing.
   */
  ghost predicate ReprAt(lw: LWheel, w: Wheel, ids: Ids, b: Bucket)
    requires Shaped(w)
  {
    && ListOf(lw, b) == Ends(IdsOf(ids, b))
    && if ValidBucket(b) then Linked(lw.heap, IdsOf(ids, b), Get(w, b)) else IdsOf(ids, b) == []
  }

  /** The lists of `lw` represent the wheel `w` through the addresses `ids`, no address listed twice. */
  ghost predicate Repr(lw: LWheel, w: Wheel, ids: Ids)
  {
    Shaped(w) && Disjoint(ids) && forall b :: ReprAt(lw, w, ids, b)
  }

  /** A chain whose nodes are unchanged in a new heap is linked there too. */
  lemma LinkedFrame(h: map<nat, LNode>, h': map<nat, LNode>, ids: seq<nat>, ns: seq<Node>)
    requires Linked(h, ids, ns)
    requires forall k :: 0 <= k < |ids| ==> ids[k] in h' && h'[ids[k]] == h[ids[k]]
    ensures Linked(h', ids, ns)
  {
  }

  /**
   * The corrected append of an unlisted node to a linked chain: the node
   * becomes the linked tail, only it and the old tail change.
   */
  lemma AppendLinked(lw: LWheel, b: Bucket, bs: seq<nat>, ns: seq<Node>, id: nat)
    requires Linked(lw.heap, bs, ns) && Distinct(bs) && ListOf(lw, b) == Ends(bs)
    requires id in lw.heap && forall k :: 0 <= k < |bs| ==> bs[k] != id
    ensures Append(lw, b, id, true).Some?
    ensures var r := Append(lw, b, id, true).value;
            && Linked(r.heap, bs + [id], ns + [lw.heap[id].node])
            && ListOf(r, b) == Ends(bs + [id])
            && forall x {:trigger r.heap[x]} :: x in lw.heap && x != id && (bs == [] || x != bs[|bs| - 1]) ==> x in r.heap && r.heap[x] == lw.heap[x]
  {
    var r := Append(lw, b, id, true).value;
    var bs' := bs + [id];
    var ns' := ns + [lw.heap[id].node];
    assert r.heap[id] == LNode(lw.heap[id].node, None);
    forall k | 0 <= k < |bs'| ensures bs'[k] in r.heap && r.heap[bs'[k]] == LNode(ns'[k], NextOf(bs', k)) {
      if k < |bs| - 1 {
        assert bs[k] != bs[|bs| - 1];
      }
    }
  }

  /** The addresses after appending `id` to bucket `b`. */
  function Enlist(ids: Ids, b: Bucket, id: nat): (r: Ids)
    ensures IdsOf(r, b) == IdsOf(ids, b) + [id]
    ensures forall b' :: b' != b ==> IdsOf(r, b') == IdsOf(ids, b')
  {
    ids[b := IdsOf(ids, b) + [id]]
  }

  /** Appending an unlisted address to a valid bucket keeps the addresses disjoint. */
  lemma EnlistDisjoint(ids: Ids, b: Bucket, id: nat)
    requires Disjoint(ids) && Unlisted(ids, id)
    ensures Disjoint(Enlist(ids, b, id))
  {
    var ids' := Enlist(ids, b, id);
    forall b1, b2, i, j | 0 <= i < |IdsOf(ids', b1)| && 0 <= j < |IdsOf(ids', b2)| && (b1 != b2 || i != j)
      ensures IdsOf(ids', b1)[i] != IdsOf(ids', b2)[j]
    {
      var x := IdsOf(ids', b1)[i];
      var y := IdsOf(ids', b2)[j];
      if b1 == b && i == |IdsOf(ids, b)| {
        assert x == id;
      } else if b2 == b && j == |IdsOf(ids, b)| {
        assert y == id;
        assert x == IdsOf(ids, b1)[i];
      } else {
        assert x == IdsOf(ids, b1)[i] && y == IdsOf(ids, b2)[j];
      }
    }
  }

  /**
   * The corrected _hive_timer_add of an allocated, unlisted node keeps the
   * representation: the lists now hold the wheel with the node added, and
   * every other unlisted node is left as it was.
   */
  lemma AddRepr(lw: LWheel, w: Wheel, ids: Ids, id: nat, c: u32)
    requires Repr(lw, w, ids) && id in lw.heap && Unlisted(ids, id)
    ensures Add(lw, id, c, true).Some?
    ensures Repr(Add(lw, id, c, true).value, AddW(w, lw.heap[id].node, c),
                 Enlist(ids, Place(lw.heap[id].node.expire, c), id))
    ensures forall x {:trigger Add(lw, id, c, true).value.heap[x]} :: x in lw.heap && x != id && Unlisted(ids, x) ==>
              x in Add(lw, id, c, true).value.heap && Add(lw, id, c, true).value.heap[x] == lw.heap[x]
  {
    var n := lw.heap[id].node;
    var p := Place(n.expire, c);
    var bs := IdsOf(ids, p);
    assert ReprAt(lw, w, ids, p);
    AppendLinked(lw, p, bs, Get(w, p), id);
    var r := Append(lw, p, id, true).value;
    var ids' := Enlist(ids, p, id);
    var w' := AddW(w, n, c);
    EnlistDisjoint(ids, p, id);
    forall b ensures ReprAt(r, w', ids', b) {
      assert ReprAt(lw, w, ids, b);
      if b != p && ValidBucket(b) {
        GetSet(w, p, Get(w, p) + [n], b);
        var s := IdsOf(ids, b);
        forall k | 0 <= k < |s| ensures s[k] in r.heap && r.heap[s[k]] == lw.heap[s[k]] {
          assert bs == [] || s[k] != bs[|bs| - 1];
        }
        LinkedFrame(lw.heap, r.heap, s, Get(w, b));
      } else if b == p {
        GetSet(w, p, Get(w, p) + [n], b);
      }
    }
    forall x | x in lw.heap && x != id && Unlisted(ids, x) ensures x in r.heap && r.heap[x] == lw.heap[x] {
      assert bs == [] || x != bs[|bs| - 1];
    }
  }

  /** Adding the nodes of a non-empty sequence is adding its head, then the rest. */
  lemma {:induction false} AddAllCons(w: Wheel, ns: seq<Node>, c: u32)
    requires Shaped(w) && ns != []
    ensures AddAllW(w, ns, c) == AddAllW(AddW(w, ns[0], c), ns[1..], c)
    decreases |ns|
  {
    if |ns| > 1 {
      var init := ns[..|ns| - 1];
      AddAllCons(w, init, c);
      assert init[1..] == ns[1..][..|ns[1..]| - 1];
      assert ns[1..][|ns[1..]| - 1] == ns[|ns| - 1];
    }
  }

  /** The same lists, wheel and addresses satisfy the representation alike. */
  lemma ReprSame(lw: LWheel, w: Wheel, ids: Ids, lw': LWheel, w': Wheel, ids': Ids)
    requires Repr(lw', w', ids') && lw == lw' && w == w' && ids == ids'
    ensures Repr(lw, w, ids)
  {
  }

  /** A detached chain: linked, without repeats, and in no list. */
  ghost predicate Chain(lw: LWheel, ids: Ids, rest: seq<nat>, ns: seq<Node>)
  {
    Linked(lw.heap, rest, ns) && Distinct(rest) && forall k :: 0 <= k < |rest| ==> Unlisted(ids, rest[k])
  }

  /** The chain after its first node. */
  lemma ChainTail(lw: LWheel, ids: Ids, rest: seq<nat>, ns: seq<Node>)
    requires Chain(lw, ids, rest, ns) && rest != []
    ensures Linked(lw.heap, rest[1..], ns[1..]) && Distinct(rest[1..])
    ensures lw.heap[rest[0]] == LNode(ns[0], HeadOf(rest[1..]))
  {
    forall k | 0 <= k < |rest| - 1 ensures NextOf(rest[1..], k) == NextOf(rest, k + 1) {
    }
  }

  /** Re-adding the head of a detached chain keeps the representation. */
  lemma MoveHeadRepr(lw: LWheel, w: Wheel, ids: Ids, rest: seq<nat>, ns: seq<Node>, c: u32)
    requires Repr(lw, w, ids) && Chain(lw, ids, rest, ns) && rest != []
    ensures Add(lw, rest[0], c, true).Some?
    ensures Repr(Add(lw, rest[0], c, true).value, AddW(w, ns[0], c), Enlist(ids, Place(ns[0].expire, c), rest[0]))
  {
    AddRepr(lw, w, ids, rest[0], c);
  }

  /** Re-adding the head of a detached chain leaves the rest of it detached. */
  lemma MoveHeadChain(lw: LWheel, w: Wheel, ids: Ids, rest: seq<nat>, ns: seq<Node>, c: u32)
    requires Repr(lw, w, ids) && Chain(lw, ids, rest, ns) && rest != []
    ensures Add(lw, rest[0], c, true).Some?
    ensures Chain(Add(lw, rest[0], c, true).value, Enlist(ids, Place(ns[0].expire, c), rest[0]), rest[1..], ns[1..])
  {
    var id := rest[0];
    ChainTail(lw, ids, rest, ns);
    AddRepr(lw, w, ids, id, c);
    var lw1 := Add(lw, id, c, true).value;
    var ids1 := Enlist(ids, Place(ns[0].expire, c), id);
    var rest1 := rest[1..];
    forall k | 0 <= k < |rest1| ensures rest1[k] in lw1.heap && lw1.heap[rest1[k]] == lw.heap[rest1[k]] {
      assert rest1[k] == rest[k + 1] != id;
    }
    LinkedFrame(lw.heap, lw1.heap, rest1, ns[1..]);
    forall k | 0 <= k < |rest1| ensures Unlisted(ids1, rest1[k]) {
      assert rest1[k] == rest[k + 1] != id;
      assert Unlisted(ids, rest[k + 1]);
    }
  }

  /** One round of the loop of _timer_move: re-add the head, go on from its next node. */
  lemma MoveHeadNext(lw: LWheel, rest: seq<nat>, c: u32, fuel: nat, r: LWheel)
    requires rest != [] && 0 < fuel && rest[0] in lw.heap && lw.heap[rest[0]].next == HeadOf(rest[1..])
    requires Add(lw, rest[0], c, true).Some?
    requires MoveFrom(Add(lw, rest[0], c, true).value, HeadOf(rest[1..]), c, true, fuel - 1) == Some(r)
    ensures MoveFrom(lw, HeadOf(rest), c, true, fuel) == Some(r)
  {
  }

  /** The addresses after the nodes at `rest` are appended one by one, head first, at time `c`. */
  function MoveIds(ids: Ids, rest: seq<nat>, ns: seq<Node>, c: u32): Ids
    decreases |rest|
  {
    if rest == [] || ns == [] then ids
    else MoveIds(Enlist(ids, Place(ns[0].expire, c), rest[0]), rest[1..], ns[1..], c)
  }

  /**
   * The loop of the corrected _timer_move over a detached chain re-adds its
   * nodes head first, keeping the representation; `r` is the result.
   */
  lemma {:induction false} MoveFromRepr(lw: LWheel, w: Wheel, ids: Ids, rest: seq<nat>, ns: seq<Node>, c: u32, fuel: nat)
    returns (r: LWheel)
    requires Repr(lw, w, ids) && Chain(lw, ids, rest, ns) && |rest| <= fuel
    ensures MoveFrom(lw, HeadOf(rest), c, true, fuel) == Some(r)
    ensures Repr(r, AddAllW(w, ns, c), MoveIds(ids, rest, ns, c))
    decreases |rest|, 1
  {
    if rest == [] {
      assert AddAllW(w, ns, c) == w;
      r := lw;
    } else {
      ChainTail(lw, ids, rest, ns);
      MoveHeadRepr(lw, w, ids, rest, ns, c);
      MoveHeadChain(lw, w, ids, rest, ns, c);
      r := MoveFromTail(lw, w, ids, rest, ns, c, fuel);
    }
  }

  /** The rest of the loop of _timer_move, once the head of the chain is re-added. */
  lemma {:induction false} MoveFromTail(lw: LWheel, w: Wheel, ids: Ids, rest: seq<nat>, ns: seq<Node>, c: u32, fuel: nat)
    returns (r: LWheel)
    requires Shaped(w) && rest != [] && |rest| == |ns| && |rest| <= fuel
    requires rest[0] in lw.heap && lw.heap[rest[0]].next == HeadOf(rest[1..])
    requires Add(lw, rest[0], c, true).Some?
    requires Repr(Add(lw, rest[0], c, true).value, AddW(w, ns[0], c), Enlist(ids, Place(ns[0].expire, c), rest[0]))
    requires Chain(Add(lw, rest[0], c, true).value, Enlist(ids, Place(ns[0].expire, c), rest[0]), rest[1..], ns[1..])
    ensures MoveFrom(lw, HeadOf(rest), c, true, fuel) == Some(r)
    ensures Repr(r, AddAllW(w, ns, c), MoveIds(ids, rest, ns, c))
    decreases |rest|, 0
  {
    r := MoveFromRepr(Add(lw, rest[0], c, true).value, AddW(w, ns[0], c), Enlist(ids, Place(ns[0].expire, c), rest[0]),
                      rest[1..], ns[1..], c, fuel - 1);
    MoveHeadNext(lw, rest, c, fuel, r);
    AddAllCons(w, ns, c);
    ReprSame(r, AddAllW(w, ns, c), MoveIds(ids, rest, ns, c),
             r, AddAllW(AddW(w, ns[0], c), ns[1..], c), MoveIds(Enlist(ids, Place(ns[0].expire, c), rest[0]), rest[1..], ns[1..], c));
  }

  /** A chain without repeats, all allocated, is no longer than the heap. */
  lemma {:induction false} DistinctFits(s: seq<nat>, heap: map<nat, LNode>)
    requires Distinct(s) && forall k :: 0 <= k < |s| ==> s[k] in heap
    ensures |s| <= |heap|
    decreases |s|
  {
    if s != [] {
      var x := s[|s| - 1];
      var init := s[..|s| - 1];
      forall k | 0 <= k < |init| ensures init[k] in heap - {x} {
        assert init[k] == s[k] != x;
      }
      DistinctFits(init, heap - {x});
      FreeShrinks(heap, x);
    }
  }

  /** Emptying the addresses of bucket `b` keeps them disjoint. */
  lemma DetachDisjoint(ids: Ids, b: Bucket)
    requires Disjoint(ids)
    ensures Disjoint(ids[b := []])
  {
    var ids0 := ids[b := []];
    forall b1, b2, i, j | 0 <= i < |IdsOf(ids0, b1)| && 0 <= j < |IdsOf(ids0, b2)| && (b1 != b2 || i != j)
      ensures IdsOf(ids0, b1)[i] != IdsOf(ids0, b2)[j]
    {
      assert IdsOf(ids0, b1)[i] == IdsOf(ids, b1)[i] && IdsOf(ids0, b2)[j] == IdsOf(ids, b2)[j];
    }
  }

  /** Detaching bucket `b` leaves the other buckets represented and `b` empty. */
  lemma DetachKeepsRepr(lw: LWheel, w: Wheel, ids: Ids, b: Bucket)
    requires Repr(lw, w, ids) && ValidBucket(b)
    ensures Repr(lw.(lists := lw.lists - {b}), Set(w, b, []), ids[b := []])
  {
    DetachDisjoint(ids, b);
    var lw0, w0, ids0 := lw.(lists := lw.lists - {b}), Set(w, b, []), ids[b := []];
    forall b' ensures ReprAt(lw0, w0, ids0, b') {
      assert ReprAt(lw, w, ids, b');
      if ValidBucket(b') {
        GetSet(w, b, [], b');
      }
    }
  }

  /** The detached addresses of bucket `b` form a chain of its nodes, listed nowhere else. */
  lemma DetachChain(lw: LWheel, w: Wheel, ids: Ids, b: Bucket)
    requires Repr(lw, w, ids) && ValidBucket(b)
    ensures Chain(lw.(lists := lw.lists - {b}), ids[b := []], IdsOf(ids, b), Get(w, b))
    ensures HeadOf(IdsOf(ids, b)) == ListOf(lw, b).head
    ensures |IdsOf(ids, b)| <= |lw.heap|
  {
    assert ReprAt(lw, w, ids, b);
    var ids0, rest := ids[b := []], IdsOf(ids, b);
    forall k | 0 <= k < |rest| ensures Unlisted(ids0, rest[k]) {
      forall b', i | 0 <= i < |IdsOf(ids0, b')| ensures IdsOf(ids0, b')[i] != rest[k] {
        assert IdsOf(ids0, b')[i] == IdsOf(ids, b')[i];
      }
    }
    DistinctFits(IdsOf(ids, b), lw.heap);
  }

  /** Detaching bucket `b` leaves the rest represented and its chain detached. */
  lemma DetachRepr(lw: LWheel, w: Wheel, ids: Ids, b: Bucket)
    requires Repr(lw, w, ids) && ValidBucket(b)
    ensures Repr(lw.(lists := lw.lists - {b}), Set(w, b, []), ids[b := []])
    ensures Chain(lw.(lists := lw.lists - {b}), ids[b := []], IdsOf(ids, b), Get(w, b))
    ensures HeadOf(IdsOf(ids, b)) == ListOf(lw, b).head
    ensures |IdsOf(ids, b)| <= |lw.heap|
  {
    DetachKeepsRepr(lw, w, ids, b);
    DetachChain(lw, w, ids, b);
  }

  /** The addresses after the corrected _timer_move of bucket `b` at time `t`. */
  ghost function MovedIds(w: Wheel, ids: Ids, b: Bucket, t: u32): Ids
    requires Shaped(w) && ValidBucket(b)
  {
    MoveIds(ids[b := []], IdsOf(ids, b), Get(w, b), t)
  }

  /** The corrected _timer_move keeps the representation: its result `r` holds the wheel with the bucket moved. */
  lemma MoveRepr(lw: LWheel, w: Wheel, ids: Ids, b: Bucket, t: u32) returns (r: LWheel)
    requires Repr(lw, w, ids) && ValidBucket(b)
    ensures Move(lw, b, t, true) == Some(r)
    ensures Repr(r, MoveW(w, b, t), MovedIds(w, ids, b, t))
  {
    DetachRepr(lw, w, ids, b);
    r := MoveFromRepr(lw.(lists := lw.lists - {b}), Set(w, b, []), ids[b := []], IdsOf(ids, b), Get(w, b), t, |lw.heap|);
  }

  /** A linked chain without its first node, which is freed. */
  lemma LinkedTail(h: map<nat, LNode>, rest: seq<nat>, ns: seq<Node>)
    requires Linked(h, rest, ns) && Distinct(rest) && rest != []
    ensures Linked(h - {rest[0]}, rest[1..], ns[1..]) && Distinct(rest[1..])
    ensures h[rest[0]] == LNode(ns[0], HeadOf(rest[1..]))
  {
    var h1 := h - {rest[0]};
    forall k | 0 <= k < |rest| - 1 ensures rest[1..][k] in h1 && h1[rest[1..][k]] == LNode(ns[1..][k], NextOf(rest[1..], k)) {
      assert rest[1..][k] == rest[k + 1] != rest[0];
    }
  }

  /** The heap with the nodes at `rest` freed one by one. */
  function Without(h: map<nat, LNode>, rest: seq<nat>): map<nat, LNode>
    decreases |rest|
  {
    if rest == [] then h else Without(h - {rest[0]}, rest[1..])
  }

  /** Freeing the nodes of a chain leaves every other node as it was. */
  lemma {:induction false} WithoutKeeps(h: map<nat, LNode>, rest: seq<nat>, x: nat)
    requires x in h && forall k :: 0 <= k < |rest| ==> rest[k] != x
    ensures x in Without(h, rest) && Without(h, rest)[x] == h[x]
    decreases |rest|
  {
    if rest != [] {
      assert x != rest[0];
      forall k | 0 <= k < |rest| - 1 ensures rest[1..][k] != x {
        assert rest[1..][k] == rest[k + 1];
      }
      WithoutKeeps(h - {rest[0]}, rest[1..], x);
    }
  }

  /**
   * The inner loop of _hive_timer_exec over a linked chain dispatches its
   * nodes in order and frees exactly them.
   */
  lemma {:induction false} ExecFromChain(lw: LWheel, rest: seq<nat>, ns: seq<Node>)
    requires Linked(lw.heap, rest, ns) && Distinct(rest)
    ensures ExecFrom(lw, HeadOf(rest)) == Some(Fired(lw.(heap := Without(lw.heap, rest)), ns))
    decreases |rest|
  {
    if rest != [] {
      var lw1 := lw.(heap := lw.heap - {rest[0]});
      LinkedTail(lw.heap, rest, ns);
      ExecFromChain(lw1, rest[1..], ns[1..]);
      assert [ns[0]] + ns[1..] == ns;
    }
  }

  /**
   * The corrected _hive_timer_exec keeps the representation: it dispatches
   * exactly the nodes of the near bucket of the time, in list order, and
   * the lists then hold the wheel with that bucket emptied.
   */
  lemma ExecRepr(lw: LWheel, w: Wheel, ids: Ids, c: u32) returns (f: Fired)
    requires Repr(lw, w, ids)
    ensures Exec(lw, c) == Some(f) && f.nodes == Due(w, c)
    ensures Repr(f.lw, ExecW(w, c), ids[Near(c % NEAR) := []])
  {
    var b := Near(c % NEAR);
    var lw0 := lw.(lists := lw.lists - {b});
    var w0 := Set(w, b, []);
    var ids0 := ids[b := []];
    var rest := IdsOf(ids, b);
    DetachRepr(lw, w, ids, b);
    ExecFromChain(lw0, rest, Get(w, b));
    f := ExecFrom(lw0, HeadOf(rest)).value;
    forall b' ensures ReprAt(f.lw, w0, ids0, b') {
      assert ReprAt(lw0, w0, ids0, b');
      if ValidBucket(b') {
        var s := IdsOf(ids0, b');
        forall k | 0 <= k < |s| ensures s[k] in f.lw.heap && f.lw.heap[s[k]] == lw0.heap[s[k]] {
          forall j | 0 <= j < |rest| ensures rest[j] != s[k] {
            assert Unlisted(ids0, rest[j]);
          }
          WithoutKeeps(lw0.heap, rest, s[k]);
        }
        LinkedFrame(lw0.heap, f.lw.heap, s, Get(w0, b'));
      }
    }
  }

  /** The next tick is the time plus one modulo 2^32. */
  lemma NextIsMod(c: u32)
    ensures Next(c) == ((c + 1) % U32_MOD) as u32
  {
  }

  /** The addresses after the corrected _hive_timer_shift from time `c`. */
  ghost function ShiftIds(w: Wheel, ids: Ids, c: u32): Ids
    requires Shaped(w)
  {
    var t := Next(c);
    MovedValid(t);
    match ShiftMoved(t)
    case None => ids
    case Some(b) => MovedIds(w, ids, b, t)
  }

  /** The corrected _hive_timer_shift keeps the representation: the lists hold the shifted wheel. */
  lemma ShiftRepr(lw: LWheel, w: Wheel, ids: Ids, c: u32) returns (r: LWheel)
    requires Repr(lw, w, ids)
    ensures Shift(lw, c, true) == Some(r)
    ensures Repr(r, ShiftW(w, c), ShiftIds(w, ids, c))
  {
    NextIsMod(c);
    var t := Next(c);
    MovedValid(t);
    if ShiftMoved(t).Some? {
      r := MoveRepr(lw, w, ids, ShiftMoved(t).value, t);
    } else {
      r := lw;
    }
  }

  /** The addresses after a corrected _timer_update at time `c`. */
  ghost function TickIds(w: Wheel, ids: Ids, c: u32): Ids
    requires Shaped(w)
  {
    ShiftIds(ExecW(w, c), ids[Near(c % NEAR) := []], c)
  }

  /**
   * The corrected _timer_update keeps the representation: it dispatches
   * exactly the nodes TimerWheel dispatches, in list order, and the lists
   * then hold the wheel TimerWheel steps to.
   */
  lemma TickRepr(lw: LWheel, w: Wheel, ids: Ids, c: u32) returns (f: Fired)
    requires Repr(lw, w, ids)
    ensures Tick(lw, c, true) == Some(f) && f.nodes == Due(w, c)
    ensures Repr(f.lw, ShiftW(ExecW(w, c), c), TickIds(w, ids, c))
  {
    var e := ExecRepr(lw, w, ids, c);
    var r := ShiftRepr(e.lw, ExecW(w, c), ids[Near(c % NEAR) := []], c);
    f := Fired(r, e.nodes);
  }

  /**
   * With the link cleared on append, a tick from lists that represent a
   * placed wheel dispatches only nodes due now (the assertion of
   * _timer_dispatch holds), dispatches every node due now, loses no other
   * node, and leaves lists that represent a wheel placed at the next time.
   */
  lemma CorrectedTickFiresDue(lw: LWheel, w: Wheel, ids: Ids, c: u32) returns (f: Fired)
    requires Repr(lw, w, ids) && Placed(w, c)
    ensures Tick(lw, c, true) == Some(f)
    ensures forall k :: 0 <= k < |f.nodes| ==> f.nodes[k].expire == c
    ensures f.nodes == Due(w, c)
    ensures Repr(f.lw, ShiftW(ExecW(w, c), c), TickIds(w, ids, c))
    ensures Placed(ShiftW(ExecW(w, c), c), Next(c))
    ensures Contents(ShiftW(ExecW(w, c), c)) + multiset(f.nodes) == Contents(w)
  {
    f := TickRepr(lw, w, ids, c);
    TickPlaced(w, c);
    NextIsMod(c);
  }

  /** Every listed address is allocated. */
  lemma ListedAllocated(lw: LWheel, w: Wheel, ids: Ids, b: Bucket, k: nat)
    requires Repr(lw, w, ids) && k < |IdsOf(ids, b)|
    ensures IdsOf(ids, b)[k] in lw.heap
  {
    assert ReprAt(lw, w, ids, b);
  }

  /**
   * The corrected hive_timer_insert of a node at a fresh address keeps
   * the representation: the lists hold the wheel with the node added.
   */
  lemma InsertRepr(lw: LWheel, w: Wheel, ids: Ids, c: u32, id: nat, n: Node)
    requires Repr(lw, w, ids) && id !in lw.heap
    ensures Insert(lw, c, id, n, true).Some?
    ensures Repr(Insert(lw, c, id, n, true).value, AddW(w, n, c), Enlist(ids, Place(n.expire, c), id))
  {
    var lw1 := lw.(heap := lw.heap[id := LNode(n, None)]);
    forall b ensures ReprAt(lw1, w, ids, b) {
      assert ReprAt(lw, w, ids, b);
      if ValidBucket(b) {
        var s := IdsOf(ids, b);
        forall k | 0 <= k < |s| ensures s[k] in lw1.heap && lw1.heap[s[k]] == lw.heap[s[k]] {
          ListedAllocated(lw, w, ids, b, k);
        }
        LinkedFrame(lw.heap, lw1.heap, s, Get(w, b));
      }
    }
    forall b, k | 0 <= k < |IdsOf(ids, b)| ensures IdsOf(ids, b)[k] != id {
      ListedAllocated(lw, w, ids, b, k);
    }
    AddRepr(lw1, w, ids, id, c);
  }

  /** The wheel of hive_timer_create: every bucket empty. */
  const EMPTY_WHEEL: Wheel := Wheel(seq(NEAR, _ => []), seq(LEVELS * LEVEL, _ => []))

  /** The empty lists represent the empty wheel, which is placed at any time. */
  lemma EmptyRepr(c: u32)
    ensures Repr(EMPTY, EMPTY_WHEEL, map[])
    ensures Placed(EMPTY_WHEEL, c)
    ensures forall b :: ValidBucket(b) ==> Get(EMPTY_WHEEL, b) == []
  {
    forall b ensures ReprAt(EMPTY, EMPTY_WHEEL, map[], b) {
    }
  }
}
