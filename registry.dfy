/**
 * The actor registry and scheduler of hive_actor.c, single-threaded.
 *
 * Live actors sit in a table whose size is a power of two; an actor with
 * handle `h` lives in slot `h & (size-1)`, which for a power-of-two size is
 * `h % size`.  `create` probes the handles `handle_index, handle_index+1, ...`
 * (uint32 arithmetic) until one maps to an empty slot, doubling the table
 * when every slot is taken.  Actors with work are queued once each in a
 * bounded circular ready queue of MAX_PROGRESS_ACTOR_COUNT entries, guarded
 * by their `is_progress` mark; `dispatch` takes the front actor and either
 * runs one of its messages or, for an actor marked `is_release`, runs the
 * release message and frees it.
 *
 * An actor is a value in its table slot; its mailbox (the MessageQueue of
 * the Mailbox module) is represented by its contents, oldest first.  The
 * ready queue stores handles where the source stores actor pointers: a live
 * handle names exactly one slot, so the two carry the same information.
 */
module ActorRegistry {
  import opened Common
  import Mailbox

  type Message = Mailbox.Message

  /** SYS_HANDLE: the sender recorded on messages the runtime itself sends. */
  const SYS_HANDLE: u32 := 0
  /** HIVE_TCREATE and HIVE_TRELEASE: the message types of creation and release. */
  const HIVE_TCREATE: int := 0
  const HIVE_TRELEASE: int := 1
  /** DEFAULT_ACTOR_CAP: the initial table size. */
  const DEFAULT_ACTOR_CAP: nat := 4
  /** MAX_PROGRESS_ACTOR_COUNT: the number of ready-queue cells. */
  const MAX_PROGRESS: nat := 0x10000
  /** The bound that create asserts on a doubled table size. */
  const MAX_TABLE: nat := 0x8000000

  /** The message every new actor finds first in its mailbox. */
  const CREATE_MSG: Message := Mailbox.Message(SYS_HANDLE, HIVE_TCREATE, 0, None)
  /** The message run when a releasing actor is dispatched. */
  const RELEASE_MSG: Message := Mailbox.Message(SYS_HANDLE, HIVE_TRELEASE, 0, None)

  /**
   * hive_actor_context without its lock: the handle, the name, whether a
   * receive callback is installed, the `is_progress` and `is_release` marks
   * and the mailbox contents.
   */
  datatype Actor = Actor(handle: u32, name: Option<string>, hasCb: bool,
                         inProgress: bool, releasing: bool, mailbox: seq<Message>)

  /** One run of an actor's callback: which actor, which message, and whether a callback was there to run it. */
  datatype Delivery = Delivery(target: u32, msg: Message, handled: bool)

  /** GP: a ready-queue position reduced modulo MAX_PROGRESS_ACTOR_COUNT. */
  function GP(i: nat): (r: nat)
    ensures r < MAX_PROGRESS
    ensures i < 2 * MAX_PROGRESS ==> r == if i < MAX_PROGRESS then i else i - MAX_PROGRESS
  {
    i % MAX_PROGRESS
  }

  // ---------------------------------------------------------------------
  // Arithmetic on sizes and handles
  // ---------------------------------------------------------------------

  predicate PowerOfTwo(n: nat)
  {
    n == 1 || (n > 1 && n % 2 == 0 && PowerOfTwo(n / 2))
  }

  /** Euclidean division has one remainder: `n*q + r` with `0 <= r < n` leaves `r`. */
  lemma ModUnique(a: int, n: int, q: int, r: int)
    requires 0 < n && 0 <= r < n && a == n * q + r
    ensures a % n == r
  {
    var d := q - a / n;
    assert n * d == a % n - r;
  }

  /** Reducing modulo a multiple of `n` first does not change the remainder modulo `n`. */
  lemma ModMod(x: int, n: int, q: int)
    requires 0 < n && 0 < q
    ensures (x % (n * q)) % n == x % n
  {
    var m := x % (n * q);
    var d := x / (n * q);
    assert x == (n * q) * d + m;
    assert (n * q) * d == n * (q * d);
    assert m == n * (m / n) + m % n;
    assert x == n * (q * d + m / n) + m % n;
    ModUnique(x, n, q * d + m / n, m % n);
  }

  /** 2^k. */
  function Pow2(k: nat): (p: nat)
    ensures p > 0
  {
    if k == 0 then 1 else 2 * Pow2(k - 1)
  }

  /** Exponents add. */
  lemma {:induction false} Pow2Add(a: nat, b: nat)
    ensures Pow2(a + b) == Pow2(a) * Pow2(b)
  {
    if a > 0 {
      Pow2Add(a - 1, b);
      assert Pow2(a + b) == 2 * Pow2(a - 1 + b);
    }
  }

  /** 2^32 is the uint32 modulus. */
  lemma Pow2Of32()
    ensures Pow2(32) == U32_MOD
  {
    assert Pow2(4) == 16;
    Pow2Add(4, 4);
    Pow2Add(8, 8);
    Pow2Add(16, 16);
  }

  /** Every 2^k is a power of two. */
  lemma {:induction false} Pow2IsPower(k: nat)
    ensures PowerOfTwo(Pow2(k))
  {
    if k > 0 {
      Pow2IsPower(k - 1);
      assert Pow2(k) / 2 == Pow2(k - 1);
    }
  }

  /** A smaller power of two divides a larger one. */
  lemma {:induction false} PowerDivides(n: nat, p: nat) returns (c: nat)
    requires PowerOfTwo(n) && PowerOfTwo(p) && n <= p
    ensures p == n * c
    decreases n
  {
    if n == 1 {
      c := p;
    } else {
      var c' := PowerDivides(n / 2, p / 2);
      c := c';
      assert p == 2 * (p / 2);
      assert n == 2 * (n / 2);
      assert p == 2 * ((n / 2) * c');
    }
  }

  /** Every table size below MAX_TABLE divides 2^32, so uint32 wrap-around keeps the slot of a handle. */
  lemma SizeDividesU32(n: nat) returns (c: nat)
    requires PowerOfTwo(n) && n < MAX_TABLE
    ensures U32_MOD == n * c && c > 0
  {
    Pow2Of32();
    Pow2IsPower(32);
    c := PowerDivides(n, U32_MOD);
  }

  /** The handle tried at probe step `k` when the probe starts at `hi`: uint32 addition. */
  function ProbeHandle(hi: u32, k: nat): u32
  {
    (hi + k) % U32_MOD
  }

  /** The slot probed at step `k` in a table of `n` slots. */
  function ProbeSlot(hi: u32, k: nat, n: nat): (s: nat)
    requires 0 < n
    ensures s < n
  {
    ProbeHandle(hi, k) % n
  }

  /** The first `n` probe steps visit every slot of a table of `n` slots. */
  lemma ProbeCovers(hi: u32, n: nat, j: nat) returns (k: nat)
    requires PowerOfTwo(n) && n < MAX_TABLE && j < n
    ensures k < n && ProbeSlot(hi, k, n) == j
  {
    k := (j - hi) % n;
    var c := SizeDividesU32(n);
    ModMod(hi + k, n, c);
    var d := (j - hi) / n;
    assert j - hi == n * d + k;
    assert hi + k == n * (-d) + j;
    ModUnique(hi + k, n, -d, j);
  }

  /** A handle's slot in the doubled table is its old slot or the one `n` above it. */
  lemma DoubledSlot(h: nat, n: nat)
    requires 0 < n
    ensures h % (2 * n) == h % n || h % (2 * n) == h % n + n
  {
    var q := h / (2 * n);
    var r := h % (2 * n);
    assert h == (2 * n) * q + r;
    if r < n {
      assert h == n * (2 * q) + r;
      ModUnique(h, n, 2 * q, r);
    } else {
      assert h == n * (2 * q + 1) + (r - n);
      ModUnique(h, n, 2 * q + 1, r - n);
    }
  }

  // ---------------------------------------------------------------------
  // The actor table
  // ---------------------------------------------------------------------

  /** The table layout: a power-of-two size and every actor in the slot of its handle. */
  ghost predicate TableOk(l: seq<Option<Actor>>)
  {
    && PowerOfTwo(|l|) && DEFAULT_ACTOR_CAP <= |l| < MAX_TABLE
    && forall i :: 0 <= i < |l| && l[i].Some? ==> l[i].value.handle % |l| == i
  }

  /** Every slot holds an actor. */
  predicate Full(l: seq<Option<Actor>>)
  {
    forall i :: 0 <= i < |l| ==> l[i].Some?
  }

  /**
   * _actor_query: the actor in the slot of `handle`, provided the actor
   * stored there carries that very handle.
   */
  function Lookup(l: seq<Option<Actor>>, handle: u32): (r: Option<Actor>)
    requires 0 < |l|
    ensures r.Some? ==> r.value.handle == handle && r == l[handle % |l|]
  {
    var a := l[handle % |l|];
    if a.Some? && a.value.handle == handle then a else None
  }

  /** A handle is found exactly when some slot holds an actor with that handle: stale handles are rejected. */
  lemma LookupFindsRegistered(l: seq<Option<Actor>>, handle: u32)
    requires TableOk(l)
    ensures Lookup(l, handle).Some? <==>
              exists i :: 0 <= i < |l| && l[i].Some? && l[i].value.handle == handle
  {
    if exists i :: 0 <= i < |l| && l[i].Some? && l[i].value.handle == handle {
      var i :| 0 <= i < |l| && l[i].Some? && l[i].value.handle == handle;
      assert handle % |l| == i;
    }
  }

  /** The table create builds when it doubles: each actor moves to the slot of its handle in the larger table. */
  function Regrown(l: seq<Option<Actor>>): (r: seq<Option<Actor>>)
    requires 0 < |l|
    ensures |r| == 2 * |l|
  {
    seq(2 * |l|, j requires 0 <= j < 2 * |l| =>
      var a := l[if j < |l| then j else j - |l|];
      if a.Some? && a.value.handle % (2 * |l|) == j then a else None)
  }

  /** Doubling keeps the layout and loses no actor: every handle finds the same actor before and after. */
  lemma RegrownLookup(l: seq<Option<Actor>>)
    requires TableOk(l) && 2 * |l| < MAX_TABLE
    ensures TableOk(Regrown(l))
    ensures forall h: u32 :: Lookup(Regrown(l), h) == Lookup(l, h)
  {
    var r := Regrown(l);
    var n := |l|;
    forall h: u32 ensures Lookup(r, h) == Lookup(l, h) {
      DoubledSlot(h, n);
      var j := h % (2 * n);
      assert (if j < n then j else j - n) == h % n;
    }
  }

  /** A doubled full table has an empty slot, so the probe that follows the doubling succeeds. */
  lemma RegrownHasHole(l: seq<Option<Actor>>) returns (j: nat)
    requires TableOk(l) && Full(l)
    ensures j < 2 * |l| && Regrown(l)[j].None?
  {
    var h := l[0].value.handle;
    DoubledSlot(h, |l|);
    j := if h % (2 * |l|) == 0 then |l| else 0;
  }

  // ---------------------------------------------------------------------
  // The ready queue
  // ---------------------------------------------------------------------

  /**
   * The ring layout of the ready queue: the queued handles `ready` sit in
   * `progress` from `head` on, wrapping at MAX_PROGRESS, with their flags
   * set and `tail` just after the last of them.
   */
  ghost predicate QueueOk(progress: seq<u32>, flags: seq<bool>, head: nat, tail: nat, ready: seq<u32>)
  {
    && |progress| == MAX_PROGRESS && |flags| == MAX_PROGRESS
    && head < MAX_PROGRESS && |ready| < MAX_PROGRESS
    && tail == GP(head + |ready|)
    && forall i :: 0 <= i < |ready| ==> progress[GP(head + i)] == ready[i] && flags[GP(head + i)]
  }

  /** An empty ring is one whose head and tail meet. */
  lemma QueueEmpty(progress: seq<u32>, flags: seq<bool>, head: nat, tail: nat, ready: seq<u32>)
    requires QueueOk(progress, flags, head, tail, ready)
    ensures ready == [] <==> head == tail
  {
  }

  /** Appending at `tail` keeps the ring, provided the ring does not fill up. */
  lemma QueuePushOk(progress: seq<u32>, flags: seq<bool>, head: nat, tail: nat, ready: seq<u32>, h: u32)
    requires QueueOk(progress, flags, head, tail, ready)
    requires |ready| + 1 < MAX_PROGRESS
    ensures GP(tail + 1) != head
    ensures QueueOk(progress[tail := h], flags[tail := true], head, GP(tail + 1), ready + [h])
  {
    var r := ready + [h];
    forall i | 0 <= i < |r|
      ensures progress[tail := h][GP(head + i)] == r[i] && flags[tail := true][GP(head + i)]
    {
      if i < |ready| {
        assert GP(head + i) != tail;
      }
    }
  }

  /** Taking the front entry at `head` keeps the ring. */
  lemma QueuePopOk(progress: seq<u32>, flags: seq<bool>, head: nat, tail: nat, ready: seq<u32>)
    requires QueueOk(progress, flags, head, tail, ready)
    requires ready != []
    ensures progress[head] == ready[0] && flags[head]
    ensures QueueOk(progress, flags[head := false], GP(head + 1), tail, ready[1..])
  {
    assert GP(head + 0) == head;
    var r := ready[1..];
    forall i | 0 <= i < |r|
      ensures progress[GP(GP(head + 1) + i)] == r[i] && flags[head := false][GP(GP(head + 1) + i)]
    {
      assert GP(GP(head + 1) + i) == GP(head + (i + 1));
      assert GP(head + (i + 1)) != head;
    }
  }

  // ---------------------------------------------------------------------
  // Scheduling bookkeeping
  // ---------------------------------------------------------------------

  /**
   * The ready queue and the `is_progress` marks agree: the queued handles
   * are live and distinct, and a live actor is marked exactly when its
   * handle is queued.
   */
  ghost predicate ReadyOk(l: seq<Option<Actor>>, ready: seq<u32>)
    requires 0 < |l|
  {
    && (forall k :: 0 <= k < |ready| ==> Lookup(l, ready[k]).Some?)
    && (forall k, m :: 0 <= k < m < |ready| ==> ready[k] != ready[m])
    && (forall i :: 0 <= i < |l| && l[i].Some? ==> (l[i].value.inProgress <==> l[i].value.handle in ready))
  }

  /** The whole registry state between operations. */
  ghost predicate StateOk(l: seq<Option<Actor>>, progress: seq<u32>, flags: seq<bool>,
                          head: nat, tail: nat, ready: seq<u32>)
  {
    TableOk(l) && ReadyOk(l, ready) && QueueOk(progress, flags, head, tail, ready)
  }

  /** Whether the actor has something for dispatch to do. */
  predicate HasWork(a: Actor)
  {
    |a.mailbox| > 0 || a.releasing
  }

  /** Every live actor is scheduled exactly when it has work. */
  ghost predicate WorkScheduled(l: seq<Option<Actor>>)
  {
    forall i :: 0 <= i < |l| && l[i].Some? ==> (l[i].value.inProgress <==> HasWork(l[i].value))
  }

  /** `is_progress` set, by _actor_progress_push. */
  function Mark(a: Actor): (b: Actor)
    ensures b.inProgress && b.handle == a.handle && b.mailbox == a.mailbox && b.releasing == a.releasing
  {
    a.(inProgress := true)
  }

  /** `is_progress` cleared, by _actor_progress_pop. */
  function Unmark(a: Actor): (b: Actor)
    ensures !b.inProgress && b.handle == a.handle && b.mailbox == a.mailbox && b.releasing == a.releasing
  {
    a.(inProgress := false)
  }

  /** hive_mq_push on the actor's mailbox: the message goes last. */
  function Deliver(a: Actor, m: Message): (b: Actor)
    ensures b.mailbox == a.mailbox + [m] && b.handle == a.handle && b.inProgress == a.inProgress
    ensures b.releasing == a.releasing && HasWork(b)
  {
    a.(mailbox := a.mailbox + [m])
  }

  /** hive_mq_pop on the actor's mailbox: the oldest message leaves. */
  function Consume(a: Actor): (b: Actor)
    requires |a.mailbox| > 0
    ensures [a.mailbox[0]] + b.mailbox == a.mailbox
    ensures b.handle == a.handle && b.inProgress == a.inProgress && b.releasing == a.releasing
  {
    a.(mailbox := a.mailbox[1..])
  }

  /** `is_release` set, by hive_actor_release. */
  function MarkRelease(a: Actor): (b: Actor)
    ensures b.releasing && HasWork(b) && b.handle == a.handle && b.inProgress == a.inProgress
    ensures b.mailbox == a.mailbox
  {
    a.(releasing := true)
  }

  /** _actor_new with every field initialised: no marks and an empty mailbox. */
  function NewActor(name: Option<string>, handle: u32, hasCb: bool): (a: Actor)
    ensures a.handle == handle && a.name == name && a.hasCb == hasCb
    ensures !a.inProgress && !a.releasing && a.mailbox == [] && !HasWork(a)
  {
    Actor(handle, name, hasCb, false, false, [])
  }

  /** Replacing an actor by one with the same handle and mark keeps the layout and the queue agreement; only its own handle's lookup changes. */
  lemma ReplaceOk(l: seq<Option<Actor>>, ready: seq<u32>, s: nat, b: Actor)
    requires TableOk(l) && ReadyOk(l, ready)
    requires s < |l| && l[s].Some? && b.handle == l[s].value.handle && b.inProgress == l[s].value.inProgress
    ensures TableOk(l[s := Some(b)]) && ReadyOk(l[s := Some(b)], ready)
    ensures forall h: u32 :: Lookup(l[s := Some(b)], h) == if h == b.handle then Some(b) else Lookup(l, h)
  {
    var t := l[s := Some(b)];
    forall h: u32 ensures Lookup(t, h) == if h == b.handle then Some(b) else Lookup(l, h) {
    }
  }

  /** Marking an unmarked actor and queueing its handle keeps the queue agreement. */
  lemma MarkOk(l: seq<Option<Actor>>, ready: seq<u32>, s: nat)
    requires TableOk(l) && ReadyOk(l, ready)
    requires s < |l| && l[s].Some? && !l[s].value.inProgress
    ensures TableOk(l[s := Some(Mark(l[s].value))])
    ensures ReadyOk(l[s := Some(Mark(l[s].value))], ready + [l[s].value.handle])
    ensures forall h: u32 :: Lookup(l[s := Some(Mark(l[s].value))], h) ==
              if h == l[s].value.handle then Some(Mark(l[s].value)) else Lookup(l, h)
  {
    var a := l[s].value;
    var t := l[s := Some(Mark(a))];
    var r := ready + [a.handle];
    assert a.handle !in ready;
    forall h: u32 ensures Lookup(t, h) == if h == a.handle then Some(Mark(a)) else Lookup(l, h) {
    }
    forall k | 0 <= k < |r| ensures Lookup(t, r[k]).Some? {
      if k < |ready| {
        assert Lookup(l, ready[k]).Some?;
      }
    }
  }

  /** Unmarking the front actor and dropping the front handle keeps the queue agreement. */
  lemma UnmarkOk(l: seq<Option<Actor>>, ready: seq<u32>)
    requires TableOk(l) && ReadyOk(l, ready) && ready != []
    ensures l[ready[0] % |l|].Some? && l[ready[0] % |l|].value.handle == ready[0]
    ensures TableOk(l[ready[0] % |l| := Some(Unmark(l[ready[0] % |l|].value))])
    ensures ReadyOk(l[ready[0] % |l| := Some(Unmark(l[ready[0] % |l|].value))], ready[1..])
  {
    assert Lookup(l, ready[0]).Some?;
    var s := ready[0] % |l|;
    var a := l[s].value;
    var t := l[s := Some(Unmark(a))];
    var r := ready[1..];
    assert a.handle !in r by {
      forall k | 0 <= k < |r| ensures r[k] != a.handle {
        assert r[k] == ready[k + 1];
      }
    }
    forall k | 0 <= k < |r| ensures Lookup(t, r[k]).Some? {
      assert r[k] == ready[k + 1];
      assert Lookup(l, ready[k + 1]).Some?;
    }
    forall i | 0 <= i < |t| && t[i].Some? ensures t[i].value.inProgress <==> t[i].value.handle in r {
      if i != s {
        var c := t[i].value;
        assert c == l[i].value;
        assert c.handle != a.handle;
        assert c.handle in ready <==> c.handle in r by {
          if c.handle in ready {
            var k :| 0 <= k < |ready| && ready[k] == c.handle;
            assert k != 0;
            assert r[k - 1] == c.handle;
          }
        }
      }
    }
  }

  /** Emptying the slot of an unmarked actor keeps the layout and the queue agreement, and forgets only that actor's handle. */
  lemma RemoveOk(l: seq<Option<Actor>>, ready: seq<u32>, s: nat)
    requires TableOk(l) && ReadyOk(l, ready)
    requires s < |l| && l[s].Some? && !l[s].value.inProgress
    ensures TableOk(l[s := None]) && ReadyOk(l[s := None], ready)
    ensures forall h: u32 :: Lookup(l[s := None], h) == if h == l[s].value.handle then None else Lookup(l, h)
  {
    var a := l[s].value;
    var t := l[s := None];
    assert a.handle !in ready;
    forall h: u32 ensures Lookup(t, h) == if h == a.handle then None else Lookup(l, h) {
    }
    forall k | 0 <= k < |ready| ensures Lookup(t, ready[k]).Some? {
      assert Lookup(l, ready[k]).Some?;
    }
  }

  /** Filling an empty slot with an unmarked actor of a handle that maps there keeps the layout and the queue agreement. */
  lemma InsertOk(l: seq<Option<Actor>>, ready: seq<u32>, s: nat, a: Actor)
    requires TableOk(l) && ReadyOk(l, ready)
    requires s < |l| && l[s].None? && a.handle % |l| == s && !a.inProgress
    ensures TableOk(l[s := Some(a)]) && ReadyOk(l[s := Some(a)], ready)
    ensures forall h: u32 :: Lookup(l[s := Some(a)], h) == if h == a.handle then Some(a) else Lookup(l, h)
  {
    var t := l[s := Some(a)];
    forall h: u32 ensures Lookup(t, h) == if h == a.handle then Some(a) else Lookup(l, h) {
    }
    forall k | 0 <= k < |ready| ensures Lookup(t, ready[k]).Some? {
      assert Lookup(l, ready[k]).Some?;
    }
  }

  /** The doubled table keeps the queue agreement and the scheduling invariant. */
  lemma RegrownOk(l: seq<Option<Actor>>, ready: seq<u32>)
    requires TableOk(l) && ReadyOk(l, ready) && 2 * |l| < MAX_TABLE
    ensures TableOk(Regrown(l)) && ReadyOk(Regrown(l), ready)
    ensures WorkScheduled(l) ==> WorkScheduled(Regrown(l))
  {
    RegrownLookup(l);
    var r := Regrown(l);
    forall k | 0 <= k < |ready| ensures Lookup(r, ready[k]).Some? {
      assert Lookup(l, ready[k]).Some?;
    }
  }

  /** Storing a settled actor keeps every live actor settled. */
  lemma SettledStore(l: seq<Option<Actor>>, s: nat, b: Option<Actor>)
    requires WorkScheduled(l) && s < |l|
    requires b.Some? ==> (b.value.inProgress <==> HasWork(b.value))
    ensures WorkScheduled(l[s := b])
  {
  }

  /** Rewriting one slot with an actor of the same handle, or emptying it, changes no other handle's lookup. */
  lemma SameHandleStore(l: seq<Option<Actor>>, s: nat, b: Option<Actor>)
    requires s < |l| && l[s].Some?
    requires b.Some? ==> b.value.handle == l[s].value.handle
    ensures forall g: u32 :: g != l[s].value.handle ==> Lookup(l[s := b], g) == Lookup(l, g)
  {
  }

  /** Which half-slot of the doubled table a slot index `j` comes from. */
  function Low(j: nat, n: nat): nat
  {
    if j < n then j else j - n
  }

  // ---------------------------------------------------------------------
  // The manager
  // ---------------------------------------------------------------------

  /** ACTOR_MGR: the ready queue and the actor table. */
  class ActorManager {
    var progress: array<u32>
    var flags: array<bool>
    var head: nat
    var tail: nat
    var list: array<Option<Actor>>
    var handleIndex: u32

    /** The queued handles, front first. */
    ghost var ready: seq<u32>

    ghost predicate Valid()
      reads this, progress, flags, list
    {
      StateOk(list[..], progress[..], flags[..], head, tail, ready)
    }

    /** The scheduling invariant of the current state. */
    ghost predicate Settled()
      reads this, list
    {
      WorkScheduled(list[..])
    }

    /** _actor_query: the live actor with this handle, if any. */
    ghost function Find(handle: u32): Option<Actor>
      reads this, list
      requires 0 < list.Length
    {
      Lookup(list[..], handle)
    }

    /** hive_actor_init: an empty ready queue, an empty table of DEFAULT_ACTOR_CAP slots, and handles starting at 1. */
    constructor ()
      ensures Valid() && Settled()
      ensures fresh(progress) && fresh(flags) && fresh(list)
      ensures head == 0 && tail == 0 && ready == []
      ensures list.Length == DEFAULT_ACTOR_CAP && handleIndex == 1
      ensures forall h: u32 :: Find(h).None?
    {
      progress := new u32[MAX_PROGRESS](_ => 0);
      flags := new bool[MAX_PROGRESS](_ => false);
      head := 0;
      tail := 0;
      list := new Option<Actor>[DEFAULT_ACTOR_CAP](_ => None);
      handleIndex := 1;
      ready := [];
      new;
      assert PowerOfTwo(list.Length / 2);
    }

    /** _actor_query, executable: the slot of `handle`, if it holds that handle. */
    method Query(handle: u32) returns (r: Option<Actor>)
      requires Valid()
      ensures r == Find(handle)
      ensures r.Some? <==> exists i :: 0 <= i < list.Length && list[i].Some? && list[i].value.handle == handle
    {
      var a := list[handle % list.Length];
      r := if a.Some? && a.value.handle == handle then a else None;
      LookupFindsRegistered(list[..], handle);
    }

    /**
     * _actor_progress_push: an actor already marked stays where it is in the
     * queue and nothing changes; otherwise it is marked and its handle is
     * appended at `tail` (the source asserts the ring does not fill up).
     */
    method Push(handle: u32)
      requires Valid() && Find(handle).Some?
      requires Find(handle).value.inProgress || |ready| + 1 < MAX_PROGRESS
      modifies this, list, progress, flags
      ensures Valid()
      ensures list == old(list) && progress == old(progress) && flags == old(flags)
      ensures handleIndex == old(handleIndex) && head == old(head)
      ensures old(Find(handle)).value.inProgress ==>
                list[..] == old(list[..]) && ready == old(ready) && tail == old(tail)
      ensures !old(Find(handle)).value.inProgress ==>
                && list[..] == old(list[..])[handle % list.Length := Some(Mark(old(Find(handle)).value))]
                && ready == old(ready) + [handle]
      ensures forall h: u32 :: Find(h) == if h == handle then Some(Mark(old(Find(handle)).value)) else old(Find(h))
    {
      var s := handle % list.Length;
      var a := list[s].value;
      if a.inProgress {
        return;
      }
      MarkOk(list[..], ready, s);
      QueuePushOk(progress[..], flags[..], head, tail, ready, handle);
      list[s] := Some(Mark(a));
      var t := tail;
      tail := GP(t + 1);
      progress[t] := handle;
      flags[t] := true;
      ready := ready + [handle];
    }

    /**
     * _actor_progress_pop: on an empty queue nothing is returned and nothing
     * changes; otherwise the front handle leaves the queue, `head` advances
     * and the actor's mark is cleared.
     */
    method Pop() returns (found: Option<u32>)
      requires Valid()
      modifies this, list, flags
      ensures Valid()
      ensures list == old(list) && progress == old(progress) && flags == old(flags)
      ensures handleIndex == old(handleIndex) && tail == old(tail)
      ensures old(ready) == [] ==>
                found.None? && list[..] == old(list[..]) && ready == [] && head == old(head)
      ensures old(ready) != [] ==>
                && found == Some(old(ready)[0])
                && old(list[ready[0] % list.Length]).Some?
                && list[..] == old(list[..])[found.value % list.Length :=
                                               Some(Unmark(old(list[ready[0] % list.Length]).value))]
                && ready == old(ready)[1..] && head == GP(old(head) + 1)
      ensures found.Some? ==> forall g: u32 :: g != found.value ==> Find(g) == old(Find(g))
    {
      QueueEmpty(progress[..], flags[..], head, tail, ready);
      var h := head;
      if tail == h || !flags[h] {
        return None;
      }
      QueuePopOk(progress[..], flags[..], head, tail, ready);
      UnmarkOk(list[..], ready);
      var handle := progress[h];
      SameHandleStore(list[..], handle % list.Length, Some(Unmark(list[handle % list.Length].value)));
      head := GP(h + 1);
      var s := handle % list.Length;
      list[s] := Some(Unmark(list[s].value));
      flags[h] := false;
      ready := ready[1..];
      found := Some(handle);
    }
  
    /** The actor dispatch would take next. */
    ghost function Front(): Actor
      reads this, progress, flags, list
      requires Valid() && ready != []
    {
      UnmarkOk(list[..], ready);
      list[ready[0] % list.Length].value
    }

    /**
     * hive_actor_send: with an unregistered source or target nothing changes
     * and -1 is returned; otherwise the message goes last into the target's
     * mailbox and the target is scheduled.  SYS_HANDLE is an ordinary
     * handle here, so a send from SYS_HANDLE succeeds only if an actor holds
     * handle 0.
     */
    method Send(source: u32, target: u32, mtype: int, session: int, data: Option<seq<byte>>) returns (r: int)
      requires Valid()
      requires Find(source).Some? && Find(target).Some? && !Find(target).value.inProgress ==>
                 |ready| + 1 < MAX_PROGRESS
      modifies this, list, progress, flags
      ensures Valid()
      ensures list == old(list) && handleIndex == old(handleIndex)
      ensures r == (if old(Find(source)).None? || old(Find(target)).None? then -1 else 0)
      ensures r == -1 ==> list[..] == old(list[..]) && ready == old(ready) && head == old(head) && tail == old(tail)
      ensures r == 0 ==>
                && Find(target) == Some(Mark(Deliver(old(Find(target)).value, Mailbox.Message(source, mtype, session, data))))
                && (forall g: u32 :: g != target ==> Find(g) == old(Find(g)))
                && ready == old(ready) + (if old(Find(target)).value.inProgress then [] else [target])
      ensures old(Settled()) ==> Settled()
    {
      var src := Query(source);
      var dst := Query(target);
      if src.None? || dst.None? {
        return -1;
      }
      var s := target % list.Length;
      var a := dst.value;
      var m := Mailbox.Message(source, mtype, session, data);
      ghost var l0 := list[..];
      ReplaceOk(l0, ready, s, Deliver(a, m));
      list[s] := Some(Deliver(a, m));
      Push(target);
      assert list[..] == l0[s := Some(Mark(Deliver(a, m)))];
      if WorkScheduled(l0) {
        SettledStore(l0, s, Some(Mark(Deliver(a, m))));
      }
      r := 0;
    }

    /**
     * hive_actor_release: an unknown handle gives -1 and changes nothing;
     * otherwise the actor is marked `is_release` and scheduled.
     */
    method Release(handle: u32) returns (r: int)
      requires Valid()
      requires Find(handle).Some? && !Find(handle).value.inProgress ==> |ready| + 1 < MAX_PROGRESS
      modifies this, list, progress, flags
      ensures Valid()
      ensures list == old(list) && handleIndex == old(handleIndex)
      ensures r == (if old(Find(handle)).None? then -1 else 0)
      ensures r == -1 ==> list[..] == old(list[..]) && ready == old(ready) && head == old(head) && tail == old(tail)
      ensures r == 0 ==>
                && Find(handle) == Some(Mark(MarkRelease(old(Find(handle)).value)))
                && (forall g: u32 :: g != handle ==> Find(g) == old(Find(g)))
                && ready == old(ready) + (if old(Find(handle)).value.inProgress then [] else [handle])
      ensures old(Settled()) ==> Settled()
    {
      var q := Query(handle);
      if q.None? {
        return -1;
      }
      var s := handle % list.Length;
      var a := q.value;
      ghost var l0 := list[..];
      ReplaceOk(l0, ready, s, MarkRelease(a));
      list[s] := Some(MarkRelease(a));
      Push(handle);
      assert list[..] == l0[s := Some(Mark(MarkRelease(a)))];
      if WorkScheduled(l0) {
        SettledStore(l0, s, Some(Mark(MarkRelease(a))));
      }
      r := 0;
    }

    /**
     * _actor_free: the releasing, unscheduled actor leaves its slot, and its
     * queued messages go with it.
     */
    method Free(handle: u32)
      requires Valid() && Find(handle).Some?
      requires Find(handle).value.releasing && !Find(handle).value.inProgress
      modifies list
      ensures Valid()
      ensures list[..] == old(list[..])[handle % list.Length := None]
      ensures Find(handle).None? && forall g: u32 :: g != handle ==> Find(g) == old(Find(g))
      ensures old(Settled()) ==> Settled()
    {
      var s := handle % list.Length;
      RemoveOk(list[..], ready, s);
      if Settled() {
        SettledStore(list[..], s, None);
      }
      list[s] := None;
    }

    /**
     * hive_actor_dispatch: with an empty queue, 0.  Otherwise the front
     * actor is taken off the queue; if it is releasing, HIVE_TRELEASE from
     * SYS_HANDLE is run, the actor is freed and 2 is returned; if its
     * mailbox is empty, 0; otherwise its oldest message is run, the actor is
     * scheduled again exactly when more than one message was queued, and 1
     * is returned.  While every actor with work is scheduled, a dispatch
     * with a non-empty queue never returns 0.
     */
    method Dispatch() returns (r: int, ran: Option<Delivery>)
      requires Valid()
      modifies this, list, progress, flags
      ensures Valid()
      ensures list == old(list) && handleIndex == old(handleIndex)
      ensures old(ready) == [] ==>
                r == 0 && ran.None? && list[..] == old(list[..]) && ready == [] && head == old(head) && tail == old(tail)
      ensures old(ready) != [] && old(Front()).releasing ==>
                && r == 2 && ran == Some(Delivery(old(ready)[0], RELEASE_MSG, old(Front()).hasCb))
                && Find(old(ready)[0]).None? && ready == old(ready)[1..]
      ensures old(ready) != [] && !old(Front()).releasing && old(Front()).mailbox == [] ==>
                && r == 0 && ran.None?
                && Find(old(ready)[0]) == Some(Unmark(old(Front()))) && ready == old(ready)[1..]
      ensures old(ready) != [] && !old(Front()).releasing && old(Front()).mailbox != [] ==>
                && r == 1 && ran == Some(Delivery(old(ready)[0], old(Front()).mailbox[0], old(Front()).hasCb))
                && Find(old(ready)[0]) == Some(
                     if |old(Front()).mailbox| > 1 then Mark(Consume(Unmark(old(Front()))))
                     else Consume(Unmark(old(Front()))))
                && ready == old(ready)[1..] + (if |old(Front()).mailbox| > 1 then [old(ready)[0]] else [])
      ensures old(ready) != [] ==> forall g: u32 :: g != old(ready)[0] ==> Find(g) == old(Find(g))
      ensures old(Settled()) ==> Settled()
      ensures old(Settled()) && old(ready) != [] ==> r != 0
    {
      ghost var l0 := list[..];
      ghost var a0 := if ready == [] then NewActor(None, 0, false) else Front();
      var found := Pop();
      if found.None? {
        return 0, None;
      }
      var h := found.value;
      var s := h % list.Length;
      var a := list[s].value;
      assert a == Unmark(a0) && Find(h) == Some(a);
      if WorkScheduled(l0) {
        assert l0[s].Some? && l0[s].value.inProgress;
      }
      if a.releasing {
        ran := Some(Delivery(h, RELEASE_MSG, a.hasCb));
        Free(h);
        if WorkScheduled(l0) {
          SettledStore(l0, s, None);
          assert list[..] == l0[s := None];
        }
        return 2, ran;
      }
      if |a.mailbox| == 0 {
        return 0, None;
      }
      ran := RunOldest(h);
      if WorkScheduled(l0) {
        SettledStore(l0, s, list[s]);
        assert list[..] == l0[s := list[s]];
      }
      r := 1;
    }

    /**
     * The running half of hive_actor_dispatch: the oldest message of the
     * unscheduled actor `handle` is taken from its mailbox and run, and the
     * actor is scheduled again exactly when the mailbox held more than one
     * message.
     */
    method RunOldest(handle: u32) returns (ran: Option<Delivery>)
      requires Valid() && Find(handle).Some?
      requires !Find(handle).value.inProgress && Find(handle).value.mailbox != []
      requires |ready| + 1 < MAX_PROGRESS
      modifies this, list, progress, flags
      ensures Valid()
      ensures list == old(list) && handleIndex == old(handleIndex) && head == old(head)
      ensures ran == Some(Delivery(handle, old(Find(handle)).value.mailbox[0], old(Find(handle)).value.hasCb))
      ensures var a := old(Find(handle)).value;
              && list[..] == old(list[..])[handle % list.Length :=
                   Some(if |a.mailbox| > 1 then Mark(Consume(a)) else Consume(a))]
              && ready == old(ready) + (if |a.mailbox| > 1 then [handle] else [])
      ensures forall g: u32 :: g != handle ==> Find(g) == old(Find(g))
    {
      var s := handle % list.Length;
      var a := list[s].value;
      var cap := |a.mailbox|;
      var m := a.mailbox[0];
      ghost var l1 := list[..];
      ReplaceOk(l1, ready, s, Consume(a));
      SameHandleStore(l1, s, Some(Mark(Consume(a))));
      list[s] := Some(Consume(a));
      ran := Some(Delivery(handle, m, a.hasCb));
      if cap > 1 {
        Push(handle);
        assert list[..] == l1[s := Some(Mark(Consume(a)))];
      }
    }
  
    /**
     * The probe loop of hive_actor_create: the offset `i` of the first
     * handle `handle_index + i` whose slot is empty, or nothing when all
     * `size` probes hit occupied slots, which happens only when the table is
     * full.
     */
    method Probe() returns (found: Option<nat>)
      requires Valid()
      ensures found.Some? ==>
                && found.value < list.Length
                && list[ProbeSlot(handleIndex, found.value, list.Length)].None?
                && forall k :: 0 <= k < found.value ==> list[ProbeSlot(handleIndex, k, list.Length)].Some?
      ensures found.None? ==> Full(list[..])
    {
      var i := 0;
      while i < list.Length
        invariant i <= list.Length
        invariant forall k :: 0 <= k < i ==> list[ProbeSlot(handleIndex, k, list.Length)].Some?
      {
        var handle := (handleIndex + i) % U32_MOD;
        if list[handle % list.Length].None? {
          return Some(i);
        }
        i := i + 1;
      }
      forall j | 0 <= j < list.Length
        ensures list[j].Some?
      {
        var k := ProbeCovers(handleIndex, list.Length, j);
      }
      return None;
    }

    /**
     * The growth step of hive_actor_create: a full table is replaced by one
     * of twice the size in which every actor sits in the slot of its handle,
     * so every handle still finds its actor (the source asserts the doubled
     * size stays below 0x8000000).
     */
    method Grow()
      requires Valid() && Full(list[..]) && 2 * list.Length < MAX_TABLE
      modifies this
      ensures Valid() && fresh(list)
      ensures list[..] == Regrown(old(list[..]))
      ensures progress == old(progress) && flags == old(flags) && head == old(head) && tail == old(tail)
      ensures ready == old(ready) && handleIndex == old(handleIndex)
      ensures forall h: u32 :: Find(h) == old(Find(h))
      ensures old(Settled()) ==> Settled()
    {
      var n := list.Length;
      ghost var l0 := list[..];
      var grown := new Option<Actor>[2 * n](_ => None);
      var i := 0;
      while i < n
        modifies grown
        invariant 0 <= i <= n
        invariant forall j :: 0 <= j < 2 * n ==> grown[j] == if Low(j, n) < i then Regrown(l0)[j] else None
      {
        var v := list[i].value;
        var slot := v.handle % (2 * n);
        DoubledSlot(v.handle, n);
        grown[slot] := list[i];
        i := i + 1;
      }
      RegrownOk(l0, ready);
      RegrownLookup(l0);
      list := grown;
      assert list[..] == Regrown(l0);
    }

    /**
     * The search half of hive_actor_create: the probe, and when it fails the
     * growth and a second probe, which then succeeds because the doubled
     * table has an empty slot.
     */
    method FindSlot() returns (i: nat)
      requires Valid()
      requires Full(list[..]) ==> 2 * list.Length < MAX_TABLE
      modifies this
      ensures Valid()
      ensures if old(Full(list[..])) then fresh(list) && list.Length == 2 * old(list.Length)
              else list == old(list)
      ensures i < list.Length && list[ProbeSlot(handleIndex, i, list.Length)].None?
      ensures forall k :: 0 <= k < i ==> list[ProbeSlot(handleIndex, k, list.Length)].Some?
      ensures progress == old(progress) && flags == old(flags) && head == old(head) && tail == old(tail)
      ensures ready == old(ready) && handleIndex == old(handleIndex)
      ensures forall h: u32 :: Find(h) == old(Find(h))
      ensures old(Settled()) ==> Settled()
    {
      var found := Probe();
      if found.None? {
        ghost var j := RegrownHasHole(list[..]);
        Grow();
        found := Probe();
        assert list[j].None?;
      }
      i := found.value;
    }

    /**
     * The install half of hive_actor_create: the new actor goes into the
     * empty slot of probe step `i`, `handle_index` moves past its handle, and
     * HIVE_TCREATE is sent to it.
     */
    method Install(i: nat, name: Option<string>, hasCb: bool) returns (handle: u32)
      requires Valid() && i < list.Length && list[ProbeSlot(handleIndex, i, list.Length)].None?
      requires |ready| + 1 < MAX_PROGRESS
      modifies this, list, progress, flags
      ensures Valid() && list == old(list)
      ensures handle == ProbeHandle(old(handleIndex), i)
      ensures forall j :: 0 <= j < list.Length && old(list[j]).Some? ==> list[j].Some?
      ensures old(Find(handle)).None?
      ensures Find(handle) == Some(Mark(Deliver(NewActor(name, handle, hasCb), CREATE_MSG)))
      ensures forall g: u32 :: g != handle ==> Find(g) == old(Find(g))
      ensures handleIndex == (handle + 1) % U32_MOD
      ensures ready == old(ready) + [handle]
      ensures old(Settled()) ==> Settled()
    {
      handle := (handleIndex + i) % U32_MOD;
      var s := handle % list.Length;
      var a := NewActor(name, handle, hasCb);
      ghost var l0 := list[..];
      InsertOk(l0, ready, s, a);
      list[s] := Some(a);
      handleIndex := (handle + 1) % U32_MOD;
      ghost var l1 := list[..];
      ReplaceOk(l1, ready, s, Deliver(a, CREATE_MSG));
      list[s] := Some(Deliver(a, CREATE_MSG));
      Push(handle);
      assert list[..] == l0[s := Some(Mark(Deliver(a, CREATE_MSG)))];
      if WorkScheduled(l0) {
        SettledStore(l0, s, Some(Mark(Deliver(a, CREATE_MSG))));
      }
    }

    /**
     * hive_actor_create: the first probed handle whose slot is empty, in a
     * table first doubled if it was full, receives a new actor whose mailbox
     * holds HIVE_TCREATE from SYS_HANDLE; the actor is scheduled, and
     * `handle_index` moves past the handle.  No other handle's lookup
     * changes.
     */
    method Create(name: Option<string>, hasCb: bool) returns (handle: u32)
      requires Valid()
      requires |ready| + 1 < MAX_PROGRESS
      requires Full(list[..]) ==> 2 * list.Length < MAX_TABLE
      modifies this, list, progress, flags
      ensures Valid()
      ensures if old(Full(list[..])) then fresh(list) && list.Length == 2 * old(list.Length)
              else list == old(list)
      ensures exists i :: 0 <= i < list.Length && handle == ProbeHandle(old(handleIndex), i)
                && forall k :: 0 <= k < i ==> list[ProbeSlot(old(handleIndex), k, list.Length)].Some?
      ensures old(Find(handle)).None?
      ensures Find(handle) == Some(Mark(Deliver(NewActor(name, handle, hasCb), CREATE_MSG)))
      ensures forall g: u32 :: g != handle ==> Find(g) == old(Find(g))
      ensures handleIndex == (handle + 1) % U32_MOD
      ensures ready == old(ready) + [handle]
      ensures old(Settled()) ==> Settled()
    {
      var i := FindSlot();
      handle := Install(i, name, hasCb);
    }
  }
}
