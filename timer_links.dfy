/**
 * The timer lists of src/hive_timer.c with their `next` pointers.
 *
 * TimerWheel keeps each bucket as the sequence of its nodes.  Here a
 * timer_list is a head and a tail pointer into a heap of nodes, each with
 * its own `next` pointer, and the operations follow those pointers as the
 * C code does.  `clear` selects between _list_append as written, which
 * leaves the appended node's `next` as it was, and the corrected append,
 * which first resets it to NULL.  A result of None stands for undefined
 * behaviour of the C program: a freed node is read or written, or a walk
 * runs on past as many nodes as are allocated.
 *
 * As written, _timer_move re-adds the nodes of a level list one by one
 * without clearing their links, so a node that lands in a near list keeps
 * pointing at the node that followed it in the level list.  The near list
 * then reaches nodes of other lists, which _hive_timer_exec dispatches
 * early and frees while they are still listed elsewhere.  With the link
 * cleared on append, the linked lists hold exactly the sequences of
 * TimerWheel, and every property proved there carries over.
 */
module TimerLinks {
  import opened Common
  import opened TimerWheel

  /** A struct timer_node at some address: its payload and its `next` pointer. */
  datatype LNode = LNode(node: Node, next: Option<nat>)

  /** A struct timer_list: its head and tail pointers (None is NULL). */
  datatype LList = LList(head: Option<nat>, tail: Option<nat>)

  /** The allocated nodes by address and the lists of the buckets; a bucket absent from `lists` has NULL head and tail. */
  datatype LWheel = LWheel(heap: map<nat, LNode>, lists: map<Bucket, LList>)

  /** The list of bucket `b`. */
  function ListOf(lw: LWheel, b: Bucket): LList
  {
    if b in lw.lists then lw.lists[b] else LList(None, None)
  }

  /** Nothing allocated and every list empty: the lists of hive_timer_create. */
  const EMPTY: LWheel := LWheel(map[], map[])

  // ---------------------------------------------------------------------
  // The list operations
  // ---------------------------------------------------------------------

  /**
   * _list_append of the node at `id` to bucket `b`; with `clear` the
   * node's `next` is first reset to NULL.  None when the tail was freed.
   */
  function Append(lw: LWheel, b: Bucket, id: nat, clear: bool): (r: Option<LWheel>)
    requires id in lw.heap
    ensures r.Some? ==> ListOf(r.value, b).tail == Some(id) && r.value.heap.Keys == lw.heap.Keys
    ensures r.Some? ==> forall b' :: b' != b ==> ListOf(r.value, b') == ListOf(lw, b')
    ensures r.None? <==> ListOf(lw, b).tail.Some? && ListOf(lw, b).tail.value !in lw.heap
  {
    var heap := if clear then lw.heap[id := lw.heap[id].(next := None)] else lw.heap;
    var l := ListOf(lw, b);
    match l.tail
    case None => Some(LWheel(heap, lw.lists[b := LList(Some(id), Some(id))]))
    case Some(t) =>
      if t !in heap then None
      else Some(LWheel(heap[t := heap[t].(next := Some(id))], lw.lists[b := LList(l.head, Some(id))]))
  }

  /** _hive_timer_add at time `c`: append the node at `id` to the bucket the placement rule names. */
  function Add(lw: LWheel, id: nat, c: u32, clear: bool): (r: Option<LWheel>)
    requires id in lw.heap
    ensures r.Some? ==> ListOf(r.value, Place(lw.heap[id].node.expire, c)).tail == Some(id)
    ensures r.Some? ==> r.value.heap.Keys == lw.heap.Keys
  {
    Append(lw, Place(lw.heap[id].node.expire, c), id, clear)
  }

  /** hive_timer_insert: a node allocated at the fresh address `id`, its `next` NULL, added at time `c`. */
  function Insert(lw: LWheel, c: u32, id: nat, n: Node, clear: bool): (r: Option<LWheel>)
    requires id !in lw.heap
    ensures r.Some? ==> r.value.heap.Keys == lw.heap.Keys + {id} && r.value.heap[id].node == n
  {
    Add(lw.(heap := lw.heap[id := LNode(n, None)]), id, c, clear)
  }

  /**
   * The loop of _timer_move from node `cur` at time `c`: read the node's
   * `next`, add the node, go on to that next; at most `fuel` nodes.
   */
  function MoveFrom(lw: LWheel, cur: Option<nat>, c: u32, clear: bool, fuel: nat): (r: Option<LWheel>)
    ensures r.Some? ==> r.value.heap.Keys == lw.heap.Keys
    decreases fuel
  {
    match cur
    case None => Some(lw)
    case Some(id) =>
      if fuel == 0 || id !in lw.heap then None
      else
        match Add(lw, id, c, clear)
        case None => None
        case Some(lw') => MoveFrom(lw', lw.heap[id].next, c, clear, fuel - 1)
  }

  /** _timer_move: detach the list of bucket `b` and re-add its nodes at time `c`. */
  function Move(lw: LWheel, b: Bucket, c: u32, clear: bool): (r: Option<LWheel>)
    ensures r.Some? ==> r.value.heap.Keys == lw.heap.Keys
  {
    MoveFrom(lw.(lists := lw.lists - {b}), ListOf(lw, b).head, c, clear, |lw.heap|)
  }

  /** What a dispatch leaves: the lists and heap after it, and the nodes dispatched, in order. */
  datatype Fired = Fired(lw: LWheel, nodes: seq<Node>)

  /** Dropping an allocated address shrinks the heap by one. */
  lemma FreeShrinks(heap: map<nat, LNode>, id: nat)
    requires id in heap
    ensures |heap - {id}| == |heap| - 1
  {
    assert (heap - {id}).Keys == heap.Keys - {id};
  }

  /**
   * The inner loop of _hive_timer_exec from node `cur`: dispatch the node,
   * read its `next`, free it, go on to that next.  Each node dispatched is
   * freed, and the lists are left alone.
   */
  function ExecFrom(lw: LWheel, cur: Option<nat>): (r: Option<Fired>)
    ensures r.Some? ==> r.value.lw.lists == lw.lists && r.value.lw.heap.Keys <= lw.heap.Keys
    ensures r.Some? ==> |r.value.lw.heap| + |r.value.nodes| == |lw.heap|
    decreases |lw.heap|
  {
    match cur
    case None => Some(Fired(lw, []))
    case Some(id) =>
      if id !in lw.heap then None
      else
        FreeShrinks(lw.heap, id);
        match ExecFrom(lw.(heap := lw.heap - {id}), lw.heap[id].next)
        case None => None
        case Some(f) => Some(Fired(f.lw, [lw.heap[id].node] + f.nodes))
  }

  /** _hive_timer_exec at time `c`: detach the near list of the time and dispatch its nodes. */
  function Exec(lw: LWheel, c: u32): (r: Option<Fired>)
    ensures r.Some? ==> ListOf(r.value.lw, Near(c % NEAR)) == LList(None, None)
  {
    var b := Near(c % NEAR);
    ExecFrom(lw.(lists := lw.lists - {b}), ListOf(lw, b).head)
  }

  /** `++state->cur_time` on a uint32: the next tick, 0 after 2^32 - 1. */
  function Next(c: u32): u32
  {
    if c as nat == U32_MOD - 1 then 0 else c + 1
  }

  /** _hive_timer_shift from time `c`: move the bucket the as-written cascade names at the next time. */
  function Shift(lw: LWheel, c: u32, clear: bool): (r: Option<LWheel>)
    ensures r.Some? ==> r.value.heap.Keys == lw.heap.Keys
  {
    var t := Next(c);
    match ShiftMoved(t)
    case None => Some(lw)
    case Some(b) => Move(lw, b, t, clear)
  }

  /** _timer_update at time `c`: exec, then shift. */
  function Tick(lw: LWheel, c: u32, clear: bool): (r: Option<Fired>)
  {
    match Exec(lw, c)
    case None => None
    case Some(f) =>
      match Shift(f.lw, c, clear)
      case None => None
      case Some(lw') => Some(Fired(lw', f.nodes))
  }

  // ---------------------------------------------------------------------
  // The as-written links: two nodes inserted 261 and 263 ticks ahead
  // ---------------------------------------------------------------------

  /** Reaching `t` cascades nothing because `t` is below 256 or not a multiple of 8. */
  predicate Quiet(t: u32)
  {
    0 < t < NEAR || t % NEAR_SHIFT != 0
  }

  /** Tick `t` finds no list in its near bucket and cascades nothing. */
  predicate Idle(lw: LWheel, t: u32)
  {
    Near(t % NEAR) !in lw.lists && Quiet(Next(t))
  }

  /** An idle tick dispatches nothing and changes nothing. */
  lemma IdleTick(lw: LWheel, c: u32, clear: bool)
    requires Idle(lw, c)
    ensures Tick(lw, c, clear) == Some(Fired(lw, []))
  {
    var b := Near(c % NEAR);
    assert lw.lists - {b} == lw.lists;
    assert ListOf(lw, b).head.None?;
    assert Exec(lw, c) == Some(Fired(lw, []));
    NoCascade(Next(c));
  }

  /** A quiet tick cascades no bucket. */
  lemma NoCascade(t: u32)
    requires Quiet(t)
    ensures ShiftMoved(t).None?
  {
    if t % NEAR_SHIFT == 0 {
      assert t / NEAR == 0;
      assert MoveLoop(t, 0, 8, 0) == MoveLoop(t, 0, 512, 1);
    }
  }


  /** The payload hive_timer_insert(state, 261, 0) gives the first timer at time 0. */
  const N261: Node := Node(261, 0, 0)
  /** The payload hive_timer_insert(state, 263, 0) gives the second timer at time 0. */
  const N263: Node := Node(263, 1, 0)

  /** Both timers wait in level_wheel[0][1], linked head to tail. */
  const INSERTED: LWheel := LWheel(map[0 := LNode(N261, Some(1)), 1 := LNode(N263, None)],
                                    map[Level(0, 1) := LList(Some(0), Some(1))])

  /** The two inserts from the empty wheel at time 0, by either append. */
  lemma InsertTwo(clear: bool)
    ensures NewNode(0, 261, 0, 0) == N261 && NewNode(0, 263, 1, 0) == N263
    ensures Insert(EMPTY, 0, 0, N261, clear).Some?
    ensures Insert(Insert(EMPTY, 0, 0, N261, clear).value, 0, 1, N263, clear) == Some(INSERTED)
  {
    assert Place(261, 0) == Level(0, 1);
    assert Place(263, 0) == Level(0, 1);
    var a := LWheel(map[0 := LNode(N261, None)], map[Level(0, 1) := LList(Some(0), Some(0))]);
    var e := EMPTY.(heap := map[0 := LNode(N261, None)]);
    assert (if clear then e.heap[0 := e.heap[0].(next := None)] else e.heap) == a.heap;
    assert ListOf(e, Level(0, 1)) == LList(None, None);
    assert Append(e, Level(0, 1), 0, clear) == Some(a);
    var a' := a.(heap := a.heap[1 := LNode(N263, None)]);
    var h := if clear then a'.heap[1 := a'.heap[1].(next := None)] else a'.heap;
    assert h == map[0 := LNode(N261, None), 1 := LNode(N263, None)];
    assert ListOf(a', Level(0, 1)) == LList(Some(0), Some(0));
    assert h[0 := h[0].(next := Some(1))] == INSERTED.heap;
    assert a.lists[Level(0, 1) := LList(Some(0), Some(1))] == INSERTED.lists;
    assert Append(a', Level(0, 1), 1, clear) == Some(INSERTED);
  }

  /** The cascade at 256 as written: the two nodes go to near_wheel[5] and [7], the first still linked to the second. */
  const MOVED: LWheel := LWheel(INSERTED.heap,
                                map[Near(5) := LList(Some(0), Some(0)), Near(7) := LList(Some(1), Some(1))])

  /** The tick at 261 as written has dispatched and freed both nodes; near_wheel[7] still points at the second. */
  const DRAINED: LWheel := LWheel(map[], map[Near(7) := LList(Some(1), Some(1))])

  /** Ticks 0 to 254 after the two inserts are idle, by either append. */
  lemma FirstTicks(clear: bool)
    ensures forall t: u32 :: t < 255 ==> Tick(INSERTED, t, clear) == Some(Fired(INSERTED, []))
  {
    forall t: u32 | t < 255 ensures Tick(INSERTED, t, clear) == Some(Fired(INSERTED, [])) {
      assert Next(t) == t + 1;
      IdleTick(INSERTED, t, clear);
    }
  }

  /** The wheel after the first node of level_wheel[0][1] is re-added at 256. */
  const HALF_MOVED: LWheel := LWheel(INSERTED.heap, map[Near(5) := LList(Some(0), Some(0))])

  /** _timer_move(state, 0, 1) at 256, as written: the first node keeps its link to the second. */
  lemma WrittenMove()
    ensures Move(INSERTED, Level(0, 1), 256, false) == Some(MOVED)
  {
    var w0 := INSERTED.(lists := map[]);
    assert INSERTED.lists - {Level(0, 1)} == map[];
    assert Place(261, 256) == Near(5);
    assert Add(w0, 0, 256, false) == Some(HALF_MOVED);
    assert Place(263, 256) == Near(7);
    assert Add(HALF_MOVED, 1, 256, false) == Some(MOVED);
    assert MoveFrom(HALF_MOVED, Some(1), 256, false, 1) == Some(MOVED);
  }

  /** Exec at 255 finds `near_wheel[255]` empty. */
  lemma ExecAt255()
    ensures Exec(INSERTED, 255) == Some(Fired(INSERTED, []))
  {
    assert INSERTED.lists - {Near(255)} == INSERTED.lists;
  }

  /** Reaching 256 cascades level_wheel[0][1]. */
  lemma CascadeAt256()
    ensures Next(255) == 256 && ShiftMoved(256) == Some(Level(0, 1))
  {
  }

  /** The tick at 255 dispatches nothing and cascades level_wheel[0][1] into the near wheel. */
  lemma WrittenCascade()
    ensures Tick(INSERTED, 255, false) == Some(Fired(MOVED, []))
  {
    ExecAt255();
    CascadeAt256();
    WrittenMove();
    assert Shift(INSERTED, 255, false) == Some(MOVED);
  }

  /** The dispatch at 261 follows the stale link from the node due at 261 to the one due at 263. */
  lemma WrittenExecAt261()
    ensures Exec(MOVED, 261) == Some(Fired(DRAINED, [N261, N263]))
  {
    var lists := map[Near(7) := LList(Some(1), Some(1))];
    assert MOVED.lists - {Near(5)} == lists;
    var h1 := MOVED.heap - {0};
    assert h1 == map[1 := LNode(N263, None)];
    assert h1 - {1} == map[];
    assert ExecFrom(LWheel(map[], lists), None) == Some(Fired(DRAINED, []));
    assert [N263] + [] == [N263] && [N261] + [N263] == [N261, N263];
    assert ExecFrom(LWheel(h1, lists), Some(1)) == Some(Fired(DRAINED, [N263]));
    assert ExecFrom(LWheel(MOVED.heap, lists), Some(0)) == Some(Fired(DRAINED, [N261, N263]));
  }

  /** The tick at 261 dispatches the node due at 261 and, through its stale link, the one due at 263. */
  lemma WrittenEarlyDispatch()
    ensures Tick(MOVED, 261, false) == Some(Fired(DRAINED, [N261, N263]))
  {
    WrittenExecAt261();
    assert Quiet(262);
    NoCascade(262);
  }

  /** Ticks 256 to 260 after the cascade are idle. */
  lemma WrittenIdleBeforeDispatch()
    ensures forall t: u32 :: 256 <= t < 261 ==> Tick(MOVED, t, false) == Some(Fired(MOVED, []))
  {
    forall t: u32 | 256 <= t < 261 ensures Tick(MOVED, t, false) == Some(Fired(MOVED, [])) {
      assert Next(t) == t + 1 == 8 * 32 + (t + 1 - NEAR);
      IdleTick(MOVED, t, false);
    }
  }

  /** Tick 262 is idle; tick 263 reads the freed node at the head of near_wheel[7]. */
  lemma WrittenUseAfterFree()
    ensures Tick(DRAINED, 262, false) == Some(Fired(DRAINED, []))
    ensures Tick(DRAINED, 263, false).None?
  {
    IdleTick(DRAINED, 262, false);
    assert DRAINED.lists - {Near(7)} == map[];
    assert Exec(DRAINED, 263).None?;
  }

  /**
   * As written, two timers inserted 261 and 263 ticks ahead at time 0 are
   * both dispatched by the tick at 261, where the assertion of
   * _timer_dispatch fails for the second; both are freed, and the tick at
   * 263 reads the freed second node through near_wheel[7].
   */
  lemma StaleLinkFiresEarly()
    ensures Insert(EMPTY, 0, 0, N261, false).Some?
    ensures Insert(Insert(EMPTY, 0, 0, N261, false).value, 0, 1, N263, false) == Some(INSERTED)
    ensures forall t: u32 :: t < 255 ==> Tick(INSERTED, t, false) == Some(Fired(INSERTED, []))
    ensures Tick(INSERTED, 255, false) == Some(Fired(MOVED, []))
    ensures forall t: u32 :: 256 <= t < 261 ==> Tick(MOVED, t, false) == Some(Fired(MOVED, []))
    ensures Tick(MOVED, 261, false) == Some(Fired(DRAINED, [N261, N263]))
    ensures N263.expire != 261
    ensures Tick(DRAINED, 262, false) == Some(Fired(DRAINED, []))
    ensures Tick(DRAINED, 263, false).None?
  {
    InsertTwo(false);
    FirstTicks(false);
    WrittenCascade();
    WrittenIdleBeforeDispatch();
    WrittenEarlyDispatch();
    WrittenUseAfterFree();
  }

  // ---------------------------------------------------------------------
  // The same two nodes with the link cleared on append
  // ---------------------------------------------------------------------

  /** The cascade at 256 with the corrected append: both nodes end their near lists. */
  const MOVED_CLEARED: LWheel := LWheel(map[0 := LNode(N261, None), 1 := LNode(N263, None)], MOVED.lists)

  /** After the tick at 261 with the corrected append: only the second node is left, in near_wheel[7]. */
  const WAITING: LWheel := LWheel(map[1 := LNode(N263, None)], map[Near(7) := LList(Some(1), Some(1))])

  /** The wheel after the first node of level_wheel[0][1] is re-added at 256 with the corrected append. */
  const HALF_CLEARED: LWheel := LWheel(map[0 := LNode(N261, None), 1 := LNode(N263, None)], map[Near(5) := LList(Some(0), Some(0))])

  /** _timer_move(state, 0, 1) at 256 with the corrected append: the first node's link is cut. */
  lemma CorrectedMove()
    ensures Move(INSERTED, Level(0, 1), 256, true) == Some(MOVED_CLEARED)
  {
    var w0 := INSERTED.(lists := map[]);
    assert INSERTED.lists - {Level(0, 1)} == map[];
    assert Place(261, 256) == Near(5);
    assert w0.heap[0 := w0.heap[0].(next := None)] == HALF_CLEARED.heap;
    assert Add(w0, 0, 256, true) == Some(HALF_CLEARED);
    assert Place(263, 256) == Near(7);
    assert HALF_CLEARED.heap[1 := HALF_CLEARED.heap[1].(next := None)] == MOVED_CLEARED.heap;
    assert ListOf(HALF_CLEARED, Near(7)) == LList(None, None);
    assert HALF_CLEARED.lists[Near(7) := LList(Some(1), Some(1))] == MOVED_CLEARED.lists;
    assert Add(HALF_CLEARED, 1, 256, true) == Some(MOVED_CLEARED);
    assert MoveFrom(HALF_CLEARED, Some(1), 256, true, 1) == Some(MOVED_CLEARED);
  }

  /** The tick at 255 with the corrected append cascades level_wheel[0][1] and cuts the link. */
  lemma CorrectedCascade()
    ensures Tick(INSERTED, 255, true) == Some(Fired(MOVED_CLEARED, []))
  {
    ExecAt255();
    CascadeAt256();
    CorrectedMove();
    assert Shift(INSERTED, 255, true) == Some(MOVED_CLEARED);
  }

  /** Ticks 256 to 260 after the corrected cascade are idle. */
  lemma CorrectedIdleBeforeDispatch()
    ensures forall t: u32 :: 256 <= t < 261 ==> Tick(MOVED_CLEARED, t, true) == Some(Fired(MOVED_CLEARED, []))
  {
    forall t: u32 | 256 <= t < 261 ensures Tick(MOVED_CLEARED, t, true) == Some(Fired(MOVED_CLEARED, [])) {
      assert Next(t) == t + 1 == 8 * 32 + (t + 1 - NEAR);
      IdleTick(MOVED_CLEARED, t, true);
    }
  }

  /** The dispatch at 261 with the corrected append releases only the node due at 261. */
  lemma CorrectedExecAt261()
    ensures Exec(MOVED_CLEARED, 261) == Some(Fired(WAITING, [N261]))
  {
    assert MOVED_CLEARED.lists - {Near(5)} == WAITING.lists;
    assert ListOf(MOVED_CLEARED, Near(5)).head == Some(0);
    CorrectedWalkAt261();
  }

  /** The walk from node 261, whose link was cut, stops after it. */
  lemma CorrectedWalkAt261()
    ensures ExecFrom(LWheel(MOVED_CLEARED.heap, WAITING.lists), Some(0)) == Some(Fired(WAITING, [N261]))
  {
    var lw := LWheel(MOVED_CLEARED.heap, WAITING.lists);
    assert lw.heap[0] == LNode(N261, None);
    assert lw.(heap := lw.heap - {0}) == WAITING;
    assert ExecFrom(WAITING, None) == Some(Fired(WAITING, []));
    assert [N261] + [] == [N261];
  }

  /** The tick at 261 with the corrected append dispatches the node due at 261 and no other. */
  lemma CorrectedDispatch()
    ensures Tick(MOVED_CLEARED, 261, true) == Some(Fired(WAITING, [N261]))
  {
    CorrectedExecAt261();
    assert Quiet(262);
    NoCascade(262);
  }

  /** Tick 262 with the corrected append is idle. */
  lemma CorrectedIdleAt262()
    ensures Tick(WAITING, 262, true) == Some(Fired(WAITING, []))
  {
    IdleTick(WAITING, 262, true);
  }

  /** The dispatch at 263 releases the second node and leaves the heap empty. */
  lemma CorrectedExecAt263()
    ensures Exec(WAITING, 263) == Some(Fired(EMPTY, [N263]))
  {
    assert WAITING.lists - {Near(7)} == map[];
    assert WAITING.heap - {1} == map[];
    assert ExecFrom(EMPTY, None) == Some(Fired(EMPTY, []));
    assert [N263] + [] == [N263];
    assert ExecFrom(LWheel(WAITING.heap, map[]), Some(1)) == Some(Fired(EMPTY, [N263]));
  }

  /**
   * The tick at 263 dispatches the second node, now due, and the cascade at
   * 264 finds level_wheel[0][1] empty.
   */
  lemma CorrectedSecondDispatch()
    ensures Tick(WAITING, 263, true) == Some(Fired(EMPTY, [N263]))
  {
    CorrectedExecAt263();
    assert ShiftMoved(264) == Some(Level(0, 1));
    assert EMPTY.lists - {Level(0, 1)} == map[];
    assert Move(EMPTY, Level(0, 1), 264, true) == Some(EMPTY);
  }

  /**
   * With the link cleared on append, the same two timers are dispatched
   * one by one, each at its own expiry tick, and nothing is left.
   */
  lemma ClearedLinkFiresOnTime()
    ensures Insert(Insert(EMPTY, 0, 0, N261, true).value, 0, 1, N263, true) == Some(INSERTED)
    ensures forall t: u32 :: t < 255 ==> Tick(INSERTED, t, true) == Some(Fired(INSERTED, []))
    ensures Tick(INSERTED, 255, true) == Some(Fired(MOVED_CLEARED, []))
    ensures forall t: u32 :: 256 <= t < 261 ==> Tick(MOVED_CLEARED, t, true) == Some(Fired(MOVED_CLEARED, []))
    ensures Tick(MOVED_CLEARED, 261, true) == Some(Fired(WAITING, [N261]))
    ensures Tick(WAITING, 262, true) == Some(Fired(WAITING, []))
    ensures Tick(WAITING, 263, true) == Some(Fired(EMPTY, [N263]))
  {
    InsertTwo(true);
    FirstTicks(true);
    CorrectedCascade();
    CorrectedIdleBeforeDispatch();
    CorrectedDispatch();
    CorrectedIdleAt262();
    CorrectedSecondDispatch();
  }
}
