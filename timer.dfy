/**
 * The hierarchical timing wheel of src/hive_timer.c.
 *
 * Time is a uint32 tick counter.  A node due at `expire` waits in one of
 * 256 near buckets when `expire` and the current time agree above their
 * low 8 bits, and otherwise in one of 4 x 64 level buckets chosen by the
 * first 6-bit group above which they agree.  Each tick runs the near bucket
 * of the current time and then advances the time, cascading one level
 * bucket back through the placement rule when a level boundary is crossed.
 *
 * Shifts and masks on uint32 values are written as division and remainder
 * by powers of two: `x >> k` is `x / 2^k`, `x & (2^k - 1)` is `x % 2^k`,
 * and `(x | (2^k - 1)) == (y | (2^k - 1))` says `x / 2^k == y / 2^k`.
 */
module TimerWheel {
  import opened Common
  import Mailbox
  import ActorRegistry

  const NEAR_SHIFT: nat := 8
  const NEAR: nat := 256
  const LEVEL_SHIFT: nat := 6
  const LEVEL: nat := 64
  /** The number of level wheels. */
  const LEVELS: nat := 4
  /** HIVE_TTIMER: the message type of a timeout. */
  const HIVE_TTIMER: int := 2

  /** A pending timeout: its expiry tick, the session it answers and the actor to notify. */
  datatype Node = Node(expire: u32, session: int, handle: u32)

  /** A bucket of the wheel: `near_wheel[idx]` or `level_wheel[lv][idx]`. */
  datatype Bucket = Near(idx: nat) | Level(lv: nat, idx: nat)

  /** A bucket that exists: an index below 256, or a level below 4 and an index below 64. */
  predicate ValidBucket(b: Bucket)
  {
    if b.Near? then b.idx < NEAR else b.lv < LEVELS && b.idx < LEVEL
  }

  // ---------------------------------------------------------------------
  // Digits of a time value
  // ---------------------------------------------------------------------

  /**
   * The time value above its low 8 + 6j bits: `x >> (8 + 6j)`.  Level `j`
   * of the wheel is indexed by `Up(x, j) % 64`.
   */
  function Up(x: nat, j: nat): nat
  {
    if j == 0 then x / NEAR else Up(x, j - 1) / LEVEL
  }

  /** Two times that agree above some bits agree above all higher bits. */
  lemma {:induction false} UpAgree(x: nat, y: nat, i: nat, j: nat)
    requires i <= j && Up(x, i) == Up(y, i)
    ensures Up(x, j) == Up(y, j)
    decreases j - i
  {
    if i < j {
      UpAgree(x, y, i, j - 1);
    }
  }

  /** Digits are monotone in the time. */
  lemma {:induction false} UpMono(x: nat, y: nat, j: nat)
    requires x <= y
    ensures Up(x, j) <= Up(y, j)
  {
    if j > 0 {
      UpMono(x, y, j - 1);
    }
  }

  /** Two times that differ above some bits differ above all lower bits. */
  lemma {:induction false} UpDiffer(x: nat, y: nat, i: nat, j: nat)
    requires i <= j && Up(x, j) != Up(y, j)
    ensures Up(x, i) != Up(y, i)
    decreases j - i
  {
    if i < j {
      UpDiffer(x, y, i + 1, j);
    }
  }

  /**
   * Advancing the time by one tick advances a digit group by one exactly
   * when it carries into it: the low 8 bits wrap for group 0, and group
   * `j - 1` advances and wraps to 0 for group `j`.
   */
  lemma {:induction false} UpSucc(x: nat, j: nat)
    ensures Up(x + 1, j) == Up(x, j) || Up(x + 1, j) == Up(x, j) + 1
    ensures j == 0 ==> (Up(x + 1, j) != Up(x, j) <==> (x + 1) % NEAR == 0)
    ensures j > 0 ==> (Up(x + 1, j) != Up(x, j) <==>
                       Up(x + 1, j - 1) != Up(x, j - 1) && Up(x + 1, j - 1) % LEVEL == 0)
  {
    if j > 0 {
      UpSucc(x, j - 1);
    }
  }

  /** Above bit 26 a uint32 value has one 6-bit digit left. */
  lemma UpTop(x: u32)
    ensures Up(x, 3) < LEVEL
  {
    assert Up(x, 0) < 0x100_0000;
    assert Up(x, 1) < 0x4_0000;
    assert Up(x, 2) < 0x1000;
  }

  /** A time is its top digit group and its low bits. */
  lemma UpZero(x: nat)
    requires Up(x, 0) == 0 && x % NEAR == 0
    ensures x == 0
  {
  }

  // ---------------------------------------------------------------------
  // Placement
  // ---------------------------------------------------------------------

  /**
   * The level loop of _hive_timer_add: `v` and `t` are the expiry and the
   * current time shifted right past level `i - 1`; the node goes to level
   * `i` if they agree above 6 more bits, or to level 3 after three misses.
   */
  function LevelPlace(v: nat, t: nat, i: nat): (b: Bucket)
    requires i <= 3
    ensures b.Level? && i <= b.lv <= 3 && b.idx < LEVEL
    decreases 3 - i
  {
    if i == 3 || v / LEVEL == t / LEVEL then Level(i, v % LEVEL)
    else LevelPlace(v / LEVEL, t / LEVEL, i + 1)
  }

  /** _hive_timer_add: the bucket a node due at `expire` joins at time `cur`. */
  function Place(expire: u32, cur: u32): (b: Bucket)
    ensures ValidBucket(b)
  {
    if expire / NEAR == cur / NEAR then Near(expire % NEAR)
    else LevelPlace(expire / NEAR, cur / NEAR, 0)
  }

  /** The first digit group, from the lowest, above which `x` and `y` agree (4 if none). */
  function FirstAgree(x: nat, y: nat, j: nat): (m: nat)
    requires j <= 4
    ensures j <= m <= 4
    decreases 4 - j
  {
    if j == 4 || Up(x, j) == Up(y, j) then j else FirstAgree(x, y, j + 1)
  }

  /** The bucket of a node whose expiry first agrees with the time above digit group `m`. */
  function BucketAt(m: nat, e: nat): Bucket
    requires m <= 4
  {
    if m == 0 then Near(e % NEAR) else Level(m - 1, Up(e, m - 1) % LEVEL)
  }

  /** FirstAgree is the first agreeing group: none below it agrees, and all from it on do. */
  lemma {:induction false} FirstAgreeIs(x: nat, y: nat, j: nat)
    requires j <= 4
    ensures var m := FirstAgree(x, y, j);
            && (forall i :: j <= i < m ==> Up(x, i) != Up(y, i))
            && (m < 4 ==> Up(x, m) == Up(y, m))
    decreases 4 - j
  {
    if j < 4 && Up(x, j) != Up(y, j) {
      FirstAgreeIs(x, y, j + 1);
    }
  }

  /** The first agreeing group is determined by where the groups agree. */
  lemma FirstAgreeUnique(x: nat, y: nat, m: nat)
    requires m <= 4
    requires forall i :: 0 <= i < m ==> Up(x, i) != Up(y, i)
    requires m < 4 ==> Up(x, m) == Up(y, m)
    ensures FirstAgree(x, y, 0) == m
  {
    FirstAgreeIs(x, y, 0);
  }

  /** The level loop follows the digit groups. */
  lemma {:induction false} LevelPlaceAgree(e: nat, c: nat, i: nat)
    requires 0 <= i <= 3
    ensures LevelPlace(Up(e, i), Up(c, i), i) == BucketAt(FirstAgree(e, c, i + 1), e)
    decreases 3 - i
  {
    if i < 3 && Up(e, i + 1) != Up(c, i + 1) {
      LevelPlaceAgree(e, c, i + 1);
    }
  }

  /**
   * The placement rule: the node goes to `near_wheel[expire & 255]` exactly
   * when expiry and time agree above the low 8 bits; otherwise to
   * `level_wheel[i][(expire >> (8 + 6i)) & 63]` for the first i in 0..2
   * above whose group they agree, and to level 3 if there is none.
   */
  lemma PlaceRule(e: u32, c: u32)
    ensures Place(e, c) == BucketAt(FirstAgree(e, c, 0), e)
    ensures Place(e, c).Near? <==> e / NEAR == c / NEAR
    ensures Place(e, c).Near? ==> Place(e, c).idx == e % NEAR
    ensures Place(e, c).Level? ==>
              var i := Place(e, c).lv;
              && i <= 3 && Place(e, c).idx == Up(e, i) % LEVEL
              && (i < 3 ==> Up(e, i + 1) == Up(c, i + 1))
              && forall j :: 0 <= j <= i ==> Up(e, j) != Up(c, j)
  {
    FirstAgreeIs(e, c, 0);
    if e / NEAR != c / NEAR {
      LevelPlaceAgree(e, c, 0);
    }
  }

  /** Whether the node is not behind the time: due later, or in a different top digit group. */
  predicate Ahead(e: u32, c: u32)
  {
    e >= c || Up(e, 3) != Up(c, 3)
  }

  /** A node ahead of the time that agrees with it above some group is due no earlier. */
  lemma AheadAgreeLater(e: u32, c: u32, m: nat)
    requires Ahead(e, c) && m <= 3 && Up(e, m) == Up(c, m)
    ensures e >= c
  {
    UpAgree(e, c, m, 3);
  }

  /** The groups above which a pending node agrees with the time do not carry on the next tick. */
  lemma AgreeNoCarry(e: u32, c: u32, m: nat)
    requires Ahead(e, c) && e != c && m <= 3 && Up(e, m) == Up(c, m)
    ensures Up(c + 1, m) == Up(c, m)
  {
    AheadAgreeLater(e, c, m);
    UpMono(c + 1, e, m);
    UpMono(c, c + 1, m);
  }

  /** A node in its rightful bucket at time `c`. */
  predicate InBucket(n: Node, c: u32, b: Bucket)
  {
    Place(n.expire, c) == b && Ahead(n.expire, c)
  }

  /** A near-bucket node due at the time of its bucket is due now. */
  lemma NearDue(e: u32, c: u32)
    requires Place(e, c) == Near(c % NEAR)
    ensures e == c
  {
    PlaceRule(e, c);
  }

  // ---------------------------------------------------------------------
  // Which level bucket a tick cascades
  // ---------------------------------------------------------------------

  /** A positive multiple of `mask` is at least `mask`. */
  lemma MultipleAtLeast(time: nat, mask: nat)
    requires 0 < time && 0 < mask && time % mask == 0
    ensures mask <= time
  {
    var q := time / mask;
    assert time == mask * q;
    assert q >= 1;
    assert mask * q >= mask * 1;
  }

  /**
   * The loop of _hive_timer_shift after `time` became non-zero: `ct` is the
   * time shifted past level `i - 1`; while the time is a multiple of `mask`,
   * the first non-zero 6-bit index names the level bucket to cascade.
   * `time & (mask - 1)` is `time % mask` for the power-of-two masks here.
   */
  function MoveLoop(time: nat, ct: nat, mask: nat, i: nat): Option<Bucket>
    requires 0 < time && 0 < mask
    decreases time - mask
  {
    if time % mask != 0 then None
    else if ct % LEVEL != 0 then Some(Level(i, ct % LEVEL))
    else
      MultipleAtLeast(time, mask);
      MoveLoop(time, ct / LEVEL, mask * LEVEL, i + 1)
  }

  /**
   * The bucket _hive_timer_shift cascades once the time has advanced to
   * `time`, as written: the mask starts at NEAR_SHIFT (8), so from the
   * level-0 step on the loop runs every 8 ticks rather than every 256.
   */
  function ShiftMoved(time: u32): Option<Bucket>
  {
    if time == 0 then Some(Level(3, 0)) else MoveLoop(time, time / NEAR, NEAR_SHIFT, 0)
  }

  /** The bucket the shift was evidently meant to cascade: the mask starts at NEAR (256). */
  function IntendedMoved(time: u32): Option<Bucket>
  {
    if time == 0 then Some(Level(3, 0)) else MoveLoop(time, time / NEAR, NEAR, 0)
  }

  /** The digit groups are the time divided by the group's weight. */
  lemma UpWeights(t: nat)
    ensures Up(t, 1) == t / 0x4000 && Up(t, 2) == t / 0x10_0000 && Up(t, 3) == t / 0x400_0000
  {
    assert Up(t, 1) == t / 0x4000 by {
      var q := t / 0x4000;
      assert t / NEAR == q * LEVEL + (t % 0x4000) / NEAR;
    }
    assert Up(t, 2) == t / 0x10_0000 by {
      var q := t / 0x10_0000;
      assert t / 0x4000 == q * LEVEL + (t % 0x10_0000) / 0x4000;
    }
    assert Up(t, 3) == t / 0x400_0000 by {
      var q := t / 0x400_0000;
      assert t / 0x10_0000 == q * LEVEL + (t % 0x400_0000) / 0x10_0000;
    }
  }

  /** A time whose low groups are all zero is a multiple of the next group's weight. */
  lemma LowZero(t: nat)
    ensures t % NEAR == 0 && Up(t, 0) % LEVEL == 0 ==> t % 0x4000 == 0
    ensures t % 0x4000 == 0 && Up(t, 1) % LEVEL == 0 ==> t % 0x10_0000 == 0
    ensures t % 0x10_0000 == 0 && Up(t, 2) % LEVEL == 0 ==> t % 0x400_0000 == 0
    ensures t % 0x400_0000 == 0 && Up(t, 3) == 0 ==> t == 0
  {
    UpWeights(t);
  }

  /**
   * The intended cascade at the tick reaching `c + 1` is the level bucket
   * just below the highest digit group that the tick carried into, at the
   * new time's index there; no bucket when the low 8 bits did not wrap.
   */
  lemma IntendedMove(c: nat)
    requires c + 1 < U32_MOD
    ensures var t := c + 1; var j := FirstAgree(t, c, 0);
            IntendedMoved(t) == if j == 0 then None else Some(Level(j - 1, Up(t, j - 1) % LEVEL))
  {
    var t := c + 1;
    UpSucc(c, 0); UpSucc(c, 1); UpSucc(c, 2); UpSucc(c, 3);
    FirstAgreeIs(t, c, 0);
    LowZero(t);
    if t % NEAR != 0 || Up(t, 0) % LEVEL != 0 {
    } else if Up(t, 1) % LEVEL != 0 {
      assert MoveLoop(t, Up(t, 1), 0x4000, 1) == Some(Level(1, Up(t, 1) % LEVEL));
    } else if Up(t, 2) % LEVEL != 0 {
      assert MoveLoop(t, Up(t, 1), 0x4000, 1) == MoveLoop(t, Up(t, 2), 0x10_0000, 2);
    } else {
      UpTop(t);
      assert MoveLoop(t, Up(t, 1), 0x4000, 1) == MoveLoop(t, Up(t, 2), 0x10_0000, 2)
          == MoveLoop(t, Up(t, 3), 0x400_0000, 3);
    }
  }

  /** From level 1 on, the as-written and the intended loops take the same steps. */
  lemma LoopsAgreeFrom2(t: nat)
    requires 0 < t < U32_MOD && t % 0x10_0000 == 0
    ensures MoveLoop(t, Up(t, 2), 0x8000, 2) == MoveLoop(t, Up(t, 2), 0x10_0000, 2)
  {
    LowZero(t);
    if Up(t, 2) % LEVEL == 0 {
      UpTop(t);
      assert MoveLoop(t, Up(t, 2), 0x8000, 2) == MoveLoop(t, Up(t, 3), 0x20_0000, 3);
      assert MoveLoop(t, Up(t, 2), 0x10_0000, 2) == MoveLoop(t, Up(t, 3), 0x400_0000, 3);
    }
  }

  /** From level 1 on, the as-written and the intended loops take the same steps. */
  lemma LoopsAgreeFrom1(t: nat)
    requires 0 < t < U32_MOD && t % 0x4000 == 0
    ensures MoveLoop(t, Up(t, 1), 0x200, 1) == MoveLoop(t, Up(t, 1), 0x4000, 1)
  {
    LowZero(t);
    if Up(t, 1) % LEVEL == 0 {
      LoopsAgreeFrom2(t);
    }
  }

  /**
   * The as-written cascade agrees with the intended one except on ticks
   * that leave the low 8 bits non-zero: there it may cascade the level-0
   * bucket at the current time's own index.
   */
  lemma ShiftMovedExtra(c: nat)
    requires c + 1 < U32_MOD
    ensures var t := c + 1;
            || ShiftMoved(t) == IntendedMoved(t)
            || (t % NEAR != 0 && ShiftMoved(t) == Some(Level(0, Up(c, 0) % LEVEL)))
  {
    var t := c + 1;
    UpSucc(c, 0);
    if t % NEAR_SHIFT != 0 {
      assert t % NEAR != 0;
    } else if Up(t, 0) % LEVEL != 0 {
    } else if t % NEAR != 0 {
      assert t % 0x200 != 0;
      assert ShiftMoved(t) == MoveLoop(t, Up(t, 1), 0x200, 1) == None;
    } else {
      LowZero(t);
      LoopsAgreeFrom1(t);
    }
  }

  /** A pending node stays ahead of the time across a tick. */
  lemma TickKeepsAhead(e: u32, c: u32)
    requires Ahead(e, c) && e != c
    ensures Ahead(e, ((c + 1) % U32_MOD) as u32)
  {
    if e < c {
      UpMono(e, c, 3);
      UpMono(c, c + 1, 3);
    }
  }

  /** The tick that wraps the time to 0 keeps every node outside level_wheel[3][0] in place. */
  lemma WrapKeepsPlace(e: u32, c: u32)
    requires Ahead(e, c) && e != c && c as nat + 1 == U32_MOD
    ensures Place(e, c) != Level(3, 0) ==> Place(e, 0) == Place(e, c)
  {
    forall i | 0 <= i < 4 ensures Up(e, i) != Up(c, i) {
      UpDiffer(e, c, i, 3);
    }
    FirstAgreeUnique(e, c, 4);
    PlaceRule(e, c);
    if Up(e, 3) != 0 {
      forall i | 0 <= i < 4 ensures Up(e, i) != Up(0, i) {
        UpDiffer(e, 0, i, 3);
      }
      FirstAgreeUnique(e, 0, 4);
      PlaceRule(e, 0);
    } else {
      assert Place(e, c) == Level(3, 0);
    }
  }

  /**
   * A tick that does not wrap keeps every node outside the bucket the
   * intended cascade re-adds in place.
   */
  lemma StepKeepsPlace(e: u32, c: u32)
    requires Ahead(e, c) && e != c && c as nat + 1 < U32_MOD
    ensures IntendedMoved(c + 1) != Some(Place(e, c)) ==> Place(e, c + 1) == Place(e, c)
  {
    PlaceRule(e, c);
    var t := c + 1;
    var m := FirstAgree(e, c, 0);
    FirstAgreeIs(e, c, 0);
    var j := FirstAgree(t, c, 0);
    FirstAgreeIs(t, c, 0);
    IntendedMove(c);
    if m < 4 {
      AgreeNoCarry(e, c, m);
    }
    assert j <= m;
    if IntendedMoved(t) != Some(Place(e, c)) {
      forall i | 0 <= i < m ensures Up(e, i) != Up(t, i) {
        if i >= j {
          UpAgree(t, c, j, i);
        } else if m > j {
          UpAgree(t, c, j, j);
          UpDiffer(e, t, i, j);
        } else {
          UpDiffer(e, t, i, j - 1);
        }
      }
      if m < 4 {
        UpAgree(t, c, j, m);
      }
      FirstAgreeUnique(e, t, m);
      PlaceRule(e, t);
    }
  }

  /**
   * One tick keeps a pending node in place: it stays ahead of the time, and
   * unless its bucket is the one the intended cascade re-adds, the
   * placement rule at the new time names the bucket it already sits in.
   */
  lemma TickKeepsPlace(e: u32, c: u32)
    requires Ahead(e, c) && e != c
    ensures var t: u32 := (c + 1) % U32_MOD;
            && Ahead(e, t)
            && (IntendedMoved(t) != Some(Place(e, c)) ==> Place(e, t) == Place(e, c))
  {
    TickKeepsAhead(e, c);
    var t: u32 := ((c + 1) % U32_MOD) as u32;
    if c as nat + 1 == U32_MOD {
      assert t == 0;
      WrapKeepsPlace(e, c);
    } else {
      assert t == c + 1;
      StepKeepsPlace(e, c);
    }
  }

  /** The bucket the as-written cascade names exists. */
  lemma MovedValid(t: u32)
    ensures ShiftMoved(t).Some? ==> ValidBucket(ShiftMoved(t).value)
  {
    if t != 0 {
      ShiftMovedExtra(t - 1);
      IntendedMove(t - 1);
    }
  }

  // ---------------------------------------------------------------------
  // The wheel as a value
  // ---------------------------------------------------------------------

  /**
   * The buckets of a timer_state: `near` holds near_wheel[0..255], `level`
   * holds level_wheel[lv][idx] at `lv * 64 + idx`.  A timer_list is the
   * sequence of its nodes from head to tail.
   */
  datatype Wheel = Wheel(near: seq<seq<Node>>, level: seq<seq<Node>>)

  predicate Shaped(w: Wheel)
  {
    |w.near| == NEAR && |w.level| == LEVELS * LEVEL
  }

  /** The position of a level bucket in `Wheel.level`. */
  function Slot(b: Bucket): nat
    requires ValidBucket(b) && b.Level?
  {
    b.lv * LEVEL + b.idx
  }

  function Get(w: Wheel, b: Bucket): seq<Node>
    requires Shaped(w) && ValidBucket(b)
  {
    if b.Near? then w.near[b.idx] else w.level[Slot(b)]
  }

  function Set(w: Wheel, b: Bucket, s: seq<Node>): (r: Wheel)
    requires Shaped(w) && ValidBucket(b)
    ensures Shaped(r)
  {
    if b.Near? then w.(near := w.near[b.idx := s]) else w.(level := w.level[Slot(b) := s])
  }

  /** Setting a bucket changes that bucket and no other. */
  lemma GetSet(w: Wheel, b: Bucket, s: seq<Node>, b': Bucket)
    requires Shaped(w) && ValidBucket(b) && ValidBucket(b')
    ensures Get(Set(w, b, s), b') == if b == b' then s else Get(w, b')
  {
    if b.Level? && b'.Level? && b != b' {
      assert Slot(b) != Slot(b');
    }
  }

  /** _list_append into the bucket _hive_timer_add picks at time `c`. */
  function AddW(w: Wheel, n: Node, c: u32): (r: Wheel)
    requires Shaped(w)
    ensures Shaped(r)
  {
    var b := Place(n.expire, c);
    Set(w, b, Get(w, b) + [n])
  }

  /** _hive_timer_add of each node of `ns`, head first. */
  function AddAllW(w: Wheel, ns: seq<Node>, c: u32): (r: Wheel)
    requires Shaped(w)
    ensures Shaped(r)
    decreases |ns|
  {
    if ns == [] then w else AddW(AddAllW(w, ns[..|ns| - 1], c), ns[|ns| - 1], c)
  }

  /** _hive_timer_exec: the near bucket of the time is emptied. */
  function ExecW(w: Wheel, c: u32): (r: Wheel)
    requires Shaped(w)
    ensures Shaped(r)
  {
    Set(w, Near(c % NEAR), [])
  }

  /** The nodes _hive_timer_exec dispatches at time `c`, in list order. */
  function Due(w: Wheel, c: u32): seq<Node>
    requires Shaped(w)
  {
    Get(w, Near(c % NEAR))
  }

  /** Empty bucket `b` and re-add its nodes at time `t`: _timer_move. */
  function MoveW(w: Wheel, b: Bucket, t: u32): (r: Wheel)
    requires Shaped(w) && ValidBucket(b)
    ensures Shaped(r)
  {
    AddAllW(Set(w, b, []), Get(w, b), t)
  }

  /** _hive_timer_shift from time `c`, as written. */
  function ShiftW(w: Wheel, c: u32): (r: Wheel)
    requires Shaped(w)
    ensures Shaped(r)
  {
    var t: u32 := ((c + 1) % U32_MOD) as u32;
    MovedValid(t);
    match ShiftMoved(t)
    case None => w
    case Some(b) => MoveW(w, b, t)
  }

  /** _hive_timer_shift from time `c` with the mask starting at NEAR. */
  function IntendedShiftW(w: Wheel, c: u32): (r: Wheel)
    requires Shaped(w)
    ensures Shaped(r)
  {
    var t: u32 := ((c + 1) % U32_MOD) as u32;
    if t == 0 then MoveW(w, Level(3, 0), t)
    else
      ShiftMovedExtra(t - 1);
      IntendedMove(t - 1);
      match IntendedMoved(t)
      case None => w
      case Some(b) => MoveW(w, b, t)
  }

  /** A call of hive_send: the target actor and the message. */
  datatype Send = Send(target: u32, msg: Mailbox.Message)

  /** The hive_send of _timer_dispatch: a HIVE_TTIMER message from SYS_HANDLE carrying the node's session. */
  function TimerSend(n: Node): Send
  {
    Send(n.handle, Mailbox.Message(ActorRegistry.SYS_HANDLE, HIVE_TTIMER, n.session, None))
  }

  /** The messages sent for `ns`, in order. */
  function Sends(ns: seq<Node>): (r: seq<Send>)
    ensures |r| == |ns|
    ensures forall k :: 0 <= k < |ns| ==> r[k] == TimerSend(ns[k])
  {
    if ns == [] then [] else Sends(ns[..|ns| - 1]) + [TimerSend(ns[|ns| - 1])]
  }

  // ---------------------------------------------------------------------
  // The wheel invariant
  // ---------------------------------------------------------------------

  /** Every node sits in the bucket the placement rule names for it at time `c`, and is ahead of `c`. */
  ghost predicate Placed(w: Wheel, c: u32)
    requires Shaped(w)
  {
    forall b, k :: ValidBucket(b) && 0 <= k < |Get(w, b)| ==> InBucket(Get(w, b)[k], c, b)
  }

  /** No node of the wheel is due at time `c`. */
  ghost predicate NoneDue(w: Wheel, c: u32)
    requires Shaped(w)
  {
    forall b, k :: ValidBucket(b) && 0 <= k < |Get(w, b)| ==> Get(w, b)[k].expire != c
  }

  /** Adding a node that is ahead of the time keeps the wheel placed. */
  lemma AddPlaced(w: Wheel, n: Node, c: u32)
    requires Shaped(w) && Placed(w, c) && Ahead(n.expire, c)
    ensures Placed(AddW(w, n, c), c)
  {
    var p := Place(n.expire, c);
    forall b | ValidBucket(b)
      ensures Get(AddW(w, n, c), b) == if p == b then Get(w, b) + [n] else Get(w, b)
    {
      GetSet(w, p, Get(w, p) + [n], b);
    }
  }

  /** Adding nodes that are all ahead of the time keeps the wheel placed. */
  lemma {:induction false} AddAllPlaced(w: Wheel, ns: seq<Node>, c: u32)
    requires Shaped(w) && Placed(w, c)
    requires forall k :: 0 <= k < |ns| ==> Ahead(ns[k].expire, c)
    ensures Placed(AddAllW(w, ns, c), c)
    decreases |ns|
  {
    if ns != [] {
      AddAllPlaced(w, ns[..|ns| - 1], c);
      AddPlaced(AddAllW(w, ns[..|ns| - 1], c), ns[|ns| - 1], c);
    }
  }

  /** Emptying a bucket keeps the wheel placed. */
  lemma ClearPlaced(w: Wheel, b: Bucket, c: u32)
    requires Shaped(w) && ValidBucket(b) && Placed(w, c)
    ensures Placed(Set(w, b, []), c)
  {
    forall b' | ValidBucket(b') ensures Get(Set(w, b, []), b') == if b == b' then [] else Get(w, b') {
      GetSet(w, b, [], b');
    }
  }

  /**
   * _hive_timer_exec on a placed wheel: every node it dispatches is due
   * now (the assertion of _timer_dispatch holds), every node due now is
   * dispatched, and the rest stay placed.
   */
  lemma ExecFiresDue(w: Wheel, c: u32)
    requires Shaped(w) && Placed(w, c)
    ensures forall k :: 0 <= k < |Due(w, c)| ==> Due(w, c)[k].expire == c
    ensures Placed(ExecW(w, c), c) && NoneDue(ExecW(w, c), c)
  {
    forall k | 0 <= k < |Due(w, c)| ensures Due(w, c)[k].expire == c {
      NearDue(Due(w, c)[k].expire, c);
    }
    ClearPlaced(w, Near(c % NEAR), c);
    forall b | ValidBucket(b) ensures Get(ExecW(w, c), b) == if b == Near(c % NEAR) then [] else Get(w, b) {
      GetSet(w, Near(c % NEAR), [], b);
    }
    assert Place(c, c) == Near(c % NEAR);
  }

  /**
   * When the as-written cascade is not the intended one, the intended
   * one moves nothing and the as-written one names the level-0 bucket at
   * the time's own index.
   */
  lemma ShiftMovedCases(c: u32)
    ensures var t: u32 := ((c + 1) % U32_MOD) as u32;
            && (IntendedMoved(t).Some? ==> IntendedMoved(t) == ShiftMoved(t))
            && (ShiftMoved(t) != IntendedMoved(t) ==>
                  c as nat + 1 < U32_MOD && IntendedMoved(t).None? && ShiftMoved(t) == Some(Level(0, Up(c, 0) % LEVEL)))
  {
    if c as nat + 1 < U32_MOD {
      ShiftMovedExtra(c);
      IntendedMove(c);
      UpSucc(c, 0);
    }
  }

  /** No node sits in the level-0 bucket at the time's own index. */
  lemma NotOwnIndex(e: u32, c: u32)
    ensures Place(e, c) != Level(0, Up(c, 0) % LEVEL)
  {
    PlaceRule(e, c);
  }

  /** The extra bucket of the as-written cascade is empty in a placed wheel. */
  lemma OwnIndexEmpty(w: Wheel, c: u32)
    requires Shaped(w) && Placed(w, c)
    ensures Get(w, Level(0, Up(c, 0) % LEVEL)) == []
  {
    var x := Level(0, Up(c, 0) % LEVEL);
    forall k | 0 <= k < |Get(w, x)| ensures Place(Get(w, x)[k].expire, c) != x {
      NotOwnIndex(Get(w, x)[k].expire, c);
    }
    assert |Get(w, x)| > 0 ==> Place(Get(w, x)[0].expire, c) != x;
  }

  /** Putting a bucket's own contents back changes nothing. */
  lemma SetSame(w: Wheel, b: Bucket)
    requires Shaped(w) && ValidBucket(b)
    ensures Set(w, b, Get(w, b)) == w
  {
  }

  /**
   * On a placed wheel the as-written shift does exactly what the intended
   * one does: its extra cascades re-add an empty bucket.
   */
  lemma ShiftAsIntended(w: Wheel, c: u32)
    requires Shaped(w) && Placed(w, c)
    ensures ShiftW(w, c) == IntendedShiftW(w, c)
  {
    var t: u32 := ((c + 1) % U32_MOD) as u32;
    ShiftMovedCases(c);
    MovedValid(t);
    if ShiftMoved(t) != IntendedMoved(t) {
      var x := Level(0, Up(c, 0) % LEVEL);
      OwnIndexEmpty(w, c);
      SetSame(w, x);
      assert MoveW(w, x, t) == w;
    }
  }

  /**
   * After a tick from a placed wheel with nothing due, every node outside
   * the cascaded bucket already sits where the placement rule at the new
   * time puts it, and every node is ahead of the new time.
   */
  lemma TickKeepsOthers(w: Wheel, c: u32, skip: Option<Bucket>)
    requires Shaped(w) && Placed(w, c) && NoneDue(w, c)
    requires IntendedMoved(((c + 1) % U32_MOD) as u32).Some? ==> IntendedMoved(((c + 1) % U32_MOD) as u32) == skip
    ensures forall b, k :: ValidBucket(b) && 0 <= k < |Get(w, b)| ==> Ahead(Get(w, b)[k].expire, ((c + 1) % U32_MOD) as u32)
    ensures forall b, k :: ValidBucket(b) && skip != Some(b) && 0 <= k < |Get(w, b)| ==>
              InBucket(Get(w, b)[k], ((c + 1) % U32_MOD) as u32, b)
  {
    forall b, k | ValidBucket(b) && 0 <= k < |Get(w, b)|
      ensures Ahead(Get(w, b)[k].expire, ((c + 1) % U32_MOD) as u32)
      ensures skip != Some(b) ==> InBucket(Get(w, b)[k], ((c + 1) % U32_MOD) as u32, b)
    {
      TickKeepsPlace(Get(w, b)[k].expire, c);
    }
  }

  /** Re-adding the nodes of a bucket whose nodes are ahead of the time places them. */
  lemma MovePlaced(w: Wheel, b: Bucket, t: u32)
    requires Shaped(w) && ValidBucket(b)
    requires forall b', k :: ValidBucket(b') && b' != b && 0 <= k < |Get(w, b')| ==> InBucket(Get(w, b')[k], t, b')
    requires forall k :: 0 <= k < |Get(w, b)| ==> Ahead(Get(w, b)[k].expire, t)
    ensures Placed(MoveW(w, b, t), t)
  {
    forall b' | ValidBucket(b') ensures Get(Set(w, b, []), b') == if b == b' then [] else Get(w, b') {
      GetSet(w, b, [], b');
    }
    AddAllPlaced(Set(w, b, []), Get(w, b), t);
  }

  /** _hive_timer_shift keeps a placed wheel with nothing due placed at the new time. */
  lemma ShiftPlaced(w: Wheel, c: u32)
    requires Shaped(w) && Placed(w, c) && NoneDue(w, c)
    ensures Placed(ShiftW(w, c), ((c + 1) % U32_MOD) as u32)
  {
    var t: u32 := ((c + 1) % U32_MOD) as u32;
    ShiftMovedCases(c);
    MovedValid(t);
    TickKeepsOthers(w, c, ShiftMoved(t));
    if ShiftMoved(t).Some? {
      MovePlaced(w, ShiftMoved(t).value, t);
    }
  }

  // ---------------------------------------------------------------------
  // Nothing is lost
  // ---------------------------------------------------------------------

  /** The nodes of a sequence of buckets. */
  function Flat(ss: seq<seq<Node>>): multiset<Node>
  {
    if ss == [] then multiset{} else Flat(ss[..|ss| - 1]) + multiset(ss[|ss| - 1])
  }

  /** Replacing one bucket swaps its nodes for the new ones. */
  lemma {:induction false} FlatUpdate(ss: seq<seq<Node>>, j: nat, x: seq<Node>)
    requires j < |ss|
    ensures Flat(ss[j := x]) + multiset(ss[j]) == Flat(ss) + multiset(x)
    decreases |ss|
  {
    var n := |ss| - 1;
    var t := ss[j := x];
    assert Flat(t) == Flat(t[..n]) + multiset(t[n]);
    assert Flat(ss) == Flat(ss[..n]) + multiset(ss[n]);
    if j == n {
      assert t[..n] == ss[..n];
    } else {
      assert t[..n] == ss[..n][j := x];
      FlatUpdate(ss[..n], j, x);
      var a, b, m := Flat(ss[..n][j := x]), Flat(ss[..n]), multiset(ss[n]);
      calc {
        Flat(t) + multiset(ss[j]);
        a + m + multiset(ss[j]);
        (a + multiset(ss[..n][j])) + m;
        (b + multiset(x)) + m;
        Flat(ss) + multiset(x);
      }
    }
  }

  /** Every pending node of the wheel. */
  function Contents(w: Wheel): multiset<Node>
  {
    Flat(w.near) + Flat(w.level)
  }

  lemma SetContents(w: Wheel, b: Bucket, s: seq<Node>)
    requires Shaped(w) && ValidBucket(b)
    ensures Contents(Set(w, b, s)) + multiset(Get(w, b)) == Contents(w) + multiset(s)
  {
    var r := Set(w, b, s);
    if b.Near? {
      assert r.near == w.near[b.idx := s] && r.level == w.level;
      FlatUpdate(w.near, b.idx, s);
      calc {
        Contents(r) + multiset(Get(w, b));
        (Flat(r.near) + multiset(w.near[b.idx])) + Flat(w.level);
        (Flat(w.near) + multiset(s)) + Flat(w.level);
      }
    } else {
      assert r.level == w.level[Slot(b) := s] && r.near == w.near;
      FlatUpdate(w.level, Slot(b), s);
      calc {
        Contents(r) + multiset(Get(w, b));
        Flat(w.near) + (Flat(r.level) + multiset(w.level[Slot(b)]));
        Flat(w.near) + (Flat(w.level) + multiset(s));
      }
    }
  }

  /** _hive_timer_add adds exactly its node. */
  lemma AddContents(w: Wheel, n: Node, c: u32)
    requires Shaped(w)
    ensures Contents(AddW(w, n, c)) == Contents(w) + multiset{n}
  {
    var b := Place(n.expire, c);
    var g := Get(w, b);
    SetContents(w, b, g + [n]);
    assert multiset(g + [n]) == multiset(g) + multiset{n};
    var a := Contents(AddW(w, n, c));
    assert a + multiset(g) == Contents(w) + multiset{n} + multiset(g);
    assert forall x :: a[x] == (Contents(w) + multiset{n})[x] by {
      forall x ensures a[x] == (Contents(w) + multiset{n})[x] {
        assert (a + multiset(g))[x] == (Contents(w) + multiset{n} + multiset(g))[x];
      }
    }
  }

  /** Adding a list of nodes adds exactly those nodes. */
  lemma {:induction false} AddAllContents(w: Wheel, ns: seq<Node>, c: u32)
    requires Shaped(w)
    ensures Contents(AddAllW(w, ns, c)) == Contents(w) + multiset(ns)
    decreases |ns|
  {
    if ns != [] {
      var init := ns[..|ns| - 1];
      AddAllContents(w, init, c);
      AddContents(AddAllW(w, init, c), ns[|ns| - 1], c);
      assert ns == init + [ns[|ns| - 1]];
    }
  }

  /** _timer_move loses no node and adds none. */
  lemma MoveContents(w: Wheel, b: Bucket, t: u32)
    requires Shaped(w) && ValidBucket(b)
    ensures Contents(MoveW(w, b, t)) == Contents(w)
  {
    SetContents(w, b, []);
    AddAllContents(Set(w, b, []), Get(w, b), t);
  }

  /** _hive_timer_shift loses no node and adds none. */
  lemma ShiftContents(w: Wheel, c: u32)
    requires Shaped(w)
    ensures Contents(ShiftW(w, c)) == Contents(w)
  {
    var t: u32 := ((c + 1) % U32_MOD) as u32;
    MovedValid(t);
    if ShiftMoved(t).Some? {
      MoveContents(w, ShiftMoved(t).value, t);
    }
  }

  /** _hive_timer_exec removes exactly the nodes it dispatches. */
  lemma ExecContents(w: Wheel, c: u32)
    requires Shaped(w)
    ensures Contents(ExecW(w, c)) + multiset(Due(w, c)) == Contents(w)
  {
    SetContents(w, Near(c % NEAR), []);
  }

  // ---------------------------------------------------------------------
  // Ticks
  // ---------------------------------------------------------------------

  /** The wheel, the time and the nodes dispatched so far. */
  datatype RunState = RunState(w: Wheel, cur: u32, fired: seq<Node>)

  /** _timer_update repeated `n` times from wheel `w` at time `c`: each tick execs, then shifts. */
  function Run(w: Wheel, c: u32, n: nat): (r: RunState)
    requires Shaped(w)
    ensures Shaped(r.w)
  {
    if n == 0 then RunState(w, c, []) else NextTick(Run(w, c, n - 1))
  }

  /** One _timer_update: exec the nodes due now, shift, and count the time up by one. */
  function NextTick(r: RunState): (r': RunState)
    requires Shaped(r.w)
    ensures Shaped(r'.w)
  {
    RunState(ShiftW(ExecW(r.w, r.cur), r.cur), ((r.cur + 1) % U32_MOD) as u32, r.fired + Due(r.w, r.cur))
  }

  /**
   * One tick from a placed wheel dispatches exactly the nodes due now,
   * keeps every other node, and leaves the wheel placed at the next time.
   */
  lemma TickPlaced(w: Wheel, c: u32)
    requires Shaped(w) && Placed(w, c)
    ensures forall k :: 0 <= k < |Due(w, c)| ==> Due(w, c)[k].expire == c
    ensures Placed(ShiftW(ExecW(w, c), c), ((c + 1) % U32_MOD) as u32)
    ensures Contents(ShiftW(ExecW(w, c), c)) + multiset(Due(w, c)) == Contents(w)
  {
    ExecFiresDue(w, c);
    ShiftPlaced(ExecW(w, c), c);
    ExecContents(w, c);
    ShiftContents(ExecW(w, c), c);
  }

  /** The last tick of a run. */
  lemma RunLast(w: Wheel, c: u32, n: nat)
    requires Shaped(w) && n > 0
    ensures var r := Run(w, c, n - 1); var r' := Run(w, c, n);
            && r'.w == ShiftW(ExecW(r.w, r.cur), r.cur)
            && r'.cur as nat == (r.cur as nat + 1) % U32_MOD
            && r'.fired == r.fired + Due(r.w, r.cur)
  {
  }

  /** Counting one more modulo 2^32. */
  lemma ModSucc(a: nat)
    ensures ((a % U32_MOD) + 1) % U32_MOD == (a + 1) % U32_MOD
  {
    var q := a / U32_MOD;
    assert a == q * U32_MOD + a % U32_MOD;
    if a % U32_MOD + 1 < U32_MOD {
      assert (a + 1) / U32_MOD == q;
    } else {
      assert a + 1 == (q + 1) * U32_MOD;
    }
  }

  /** Each tick advances the time by one, modulo 2^32. */
  lemma RunTime(w: Wheel, c: u32, n: nat)
    requires Shaped(w)
    ensures Run(w, c, n).cur as nat == (c as nat + n) % U32_MOD
  {
    var i := 0;
    while i < n
      invariant i <= n
      invariant Run(w, c, i).cur as nat == (c as nat + i) % U32_MOD
    {
      TimeStep(w, c, i);
      i := i + 1;
    }
  }

  /** If `i` ticks advance the time by `i`, then `i + 1` ticks advance it by `i + 1`. */
  lemma TimeStep(w: Wheel, c: u32, i: nat)
    requires Shaped(w) && Run(w, c, i).cur as nat == (c as nat + i) % U32_MOD
    ensures Run(w, c, i + 1).cur as nat == (c as nat + i + 1) % U32_MOD
  {
    assert Run(w, c, i + 1).cur as nat == (Run(w, c, i).cur as nat + 1) % U32_MOD;
    ModSucc(c as nat + i);
  }

  /** A tick keeps a placed wheel placed. */
  lemma NextTickPlaced(r: RunState)
    requires Shaped(r.w) && Placed(r.w, r.cur)
    ensures Placed(NextTick(r).w, NextTick(r).cur)
  {
    TickPlaced(r.w, r.cur);
  }

  /** A tick moves the nodes it dispatches from the wheel to the dispatched ones. */
  lemma NextTickContents(r: RunState)
    requires Shaped(r.w)
    ensures Contents(NextTick(r).w) + multiset(NextTick(r).fired) == Contents(r.w) + multiset(r.fired)
  {
    var e := ExecW(r.w, r.cur);
    ExecContents(r.w, r.cur);
    ShiftContents(e, r.cur);
    calc {
      Contents(NextTick(r).w) + multiset(NextTick(r).fired);
      Contents(e) + (multiset(r.fired) + multiset(Due(r.w, r.cur)));
      (Contents(e) + multiset(Due(r.w, r.cur))) + multiset(r.fired);
      Contents(r.w) + multiset(r.fired);
    }
  }

  /** Any number of ticks from a placed wheel leave it placed. */
  lemma RunPlaced(w: Wheel, c: u32, n: nat)
    requires Shaped(w) && Placed(w, c)
    ensures Placed(Run(w, c, n).w, Run(w, c, n).cur)
  {
    var i := 0;
    while i < n
      invariant i <= n
      invariant Placed(Run(w, c, i).w, Run(w, c, i).cur)
    {
      NextTickPlaced(Run(w, c, i));
      i := i + 1;
    }
  }

  /** Over any number of ticks every node is either still pending or dispatched exactly once. */
  lemma RunContents(w: Wheel, c: u32, n: nat)
    requires Shaped(w)
    ensures Contents(Run(w, c, n).w) + multiset(Run(w, c, n).fired) == Contents(w)
  {
    var i := 0;
    while i < n
      invariant i <= n
      invariant Contents(Run(w, c, i).w) + multiset(Run(w, c, i).fired) == Contents(w)
    {
      NextTickContents(Run(w, c, i));
      i := i + 1;
    }
  }

  /** _node_new: a node due `offset` ticks after `cur`, with uint32 wrap-around. */
  function NewNode(cur: u32, offset: u32, session: int, handle: u32): (n: Node)
    ensures n.session == session && n.handle == handle
    ensures n.expire as nat + (if cur as nat + offset >= U32_MOD then U32_MOD else 0) == cur as nat + offset
  {
    Node(((cur as nat + offset) % U32_MOD) as u32, session, handle)
  }

  /** The messages for two lists of nodes are the messages for each, in order. */
  lemma {:induction false} SendsAppend(a: seq<Node>, b: seq<Node>)
    ensures Sends(a + b) == Sends(a) + Sends(b)
  {
    assert |Sends(a + b)| == |Sends(a) + Sends(b)|;
    forall k | 0 <= k < |a + b| ensures Sends(a + b)[k] == (Sends(a) + Sends(b))[k] {
      if k < |a| {
      } else {
        assert (a + b)[k] == b[k - |a|];
      }
    }
  }

  /**
   * A node inserted `offset` ticks ahead is ahead of the time unless the
   * offset reaches back into the time's own top 6-bit group: any offset up
   * to 2^32 - 2^26 keeps the wheel placed.
   */
  lemma InsertPlaced(w: Wheel, c: u32, offset: u32, session: int, handle: u32)
    requires Shaped(w) && Placed(w, c) && offset as nat <= U32_MOD - 0x400_0000
    ensures Placed(AddW(w, NewNode(c, offset, session, handle), c), c)
  {
    var n := NewNode(c, offset, session, handle);
    if c as nat + offset >= U32_MOD {
      var e := n.expire as nat;
      UpWeights(e);
      UpWeights(e + 0x400_0000);
      UpMono(e + 0x400_0000, c, 3);
    }
    AddPlaced(w, n, c);
  }

  /**
   * An offset of 2^32 - 1 at time 1 yields a node due at 0 that lands in
   * near_wheel[0] behind the time; that bucket is next dispatched at time
   * 256, where the assertion of _timer_dispatch does not hold.
   */
  lemma OffsetBehindTime()
    ensures var n := NewNode(1, 0xFFFF_FFFF, 0, 0);
            && n.expire == 0 && Place(n.expire, 1) == Near(0) && !Ahead(n.expire, 1)
            && Near(256 % NEAR) == Near(0) && n.expire != 256
  {
  }

  /**
   * At the tick reaching 264 the as-written loop (mask from 8) cascades
   * level_wheel[0][1], while the low 8 bits are non-zero and the intended
   * loop (mask from 256) cascades nothing.
   */
  lemma ExtraCascadeAt264()
    ensures ShiftMoved(264) == Some(Level(0, 1))
    ensures IntendedMoved(264).None?
  {
  }

  // ---------------------------------------------------------------------
  // The timer state
  // ---------------------------------------------------------------------

  /** struct timer_state: the buckets, the current tick, the last wall-clock reading and the session counter. */
  class TimerState {
    var near: array<seq<Node>>
    var level: array<seq<Node>>
    var curTime: u32
    var lastRealTime: nat
    var session: int

    ghost predicate Valid()
      reads this
    {
      near.Length == NEAR && level.Length == LEVELS * LEVEL && near != level
    }

    /** The buckets as a value. */
    ghost function W(): (w: Wheel)
      reads this, near, level
      requires Valid()
      ensures Shaped(w)
    {
      Wheel(near[..], level[..])
    }

    /** hive_timer_create: every bucket empty, time 0, session 0; `now` is the wall-clock reading. */
    constructor (now: nat)
      ensures Valid() && fresh(near) && fresh(level)
      ensures curTime == 0 && session == 0 && lastRealTime == now
      ensures forall b :: ValidBucket(b) ==> Get(W(), b) == []
      ensures Placed(W(), curTime)
    {
      near := new seq<Node>[NEAR](_ => []);
      level := new seq<Node>[LEVELS * LEVEL](_ => []);
      curTime := 0;
      lastRealTime := now;
      session := 0;
    }

    /** _hive_timer_add: append the node to the bucket the placement rule names. */
    method Add(n: Node)
      requires Valid()
      modifies near, level
      ensures W() == AddW(old(W()), n, curTime)
    {
      var expire := n.expire;
      if expire / NEAR == curTime / NEAR {
        var idx := expire % NEAR;
        near[idx] := near[idx] + [n];
      } else {
        var value: u32 := expire / NEAR;
        var time: u32 := curTime / NEAR;
        var i := 0;
        while i < 3
          invariant 0 <= i <= 3
          invariant LevelPlace(value, time, i) == Place(expire, curTime)
        {
          if value / LEVEL == time / LEVEL {
            break;
          }
          value := value / LEVEL;
          time := time / LEVEL;
          i := i + 1;
        }
        var slot := i * LEVEL + value % LEVEL;
        level[slot] := level[slot] + [n];
      }
    }

    /**
     * _hive_timer_exec: empty the near bucket of the current time and
     * dispatch its nodes in list order.
     */
    method Exec() returns (sent: seq<Send>)
      requires Valid()
      modifies near
      ensures W() == ExecW(old(W()), curTime)
      ensures sent == Sends(Due(old(W()), curTime))
    {
      var idx := curTime % NEAR;
      var list := near[idx];
      near[idx] := [];
      sent := [];
      var k := 0;
      while k < |list|
        invariant 0 <= k <= |list|
        invariant sent == Sends(list[..k])
      {
        assert list[..k + 1][..k] == list[..k];
        sent := sent + [TimerSend(list[k])];
        k := k + 1;
      }
      assert list[..k] == list;
    }

    /** _timer_move: empty level bucket `lv`, `idx` and re-add its nodes, head first. */
    method Move(lv: nat, idx: nat)
      requires Valid() && lv < LEVELS && idx < LEVEL
      modifies near, level
      ensures W() == MoveW(old(W()), Level(lv, idx), curTime)
    {
      ghost var w0 := W();
      var slot := lv * LEVEL + idx;
      var list := level[slot];
      level[slot] := [];
      ghost var w1 := W();
      assert w1 == Set(w0, Level(lv, idx), []);
      var k := 0;
      while k < |list|
        invariant 0 <= k <= |list|
        invariant W() == AddAllW(w1, list[..k], curTime)
      {
        assert list[..k + 1][..k] == list[..k];
        Add(list[k]);
        k := k + 1;
      }
      assert list[..k] == list;
    }

    /**
     * _hive_timer_shift: advance the time by one tick, modulo 2^32, and
     * cascade the level bucket the as-written mask loop names.
     */
    method Shift()
      requires Valid()
      modifies this, near, level
      ensures Valid() && near == old(near) && level == old(level)
      ensures lastRealTime == old(lastRealTime) && session == old(session)
      ensures curTime as nat == (old(curTime) as nat + 1) % U32_MOD
      ensures W() == ShiftW(old(W()), old(curTime))
    {
      ghost var w0 := W();
      ghost var c0 := curTime;
      var time: u32 := ((curTime as nat + 1) % U32_MOD) as u32;
      curTime := time;
      MovedValid(time);
      assert ShiftW(w0, c0) == match ShiftMoved(time) case None => w0 case Some(b) => MoveW(w0, b, time);
      if time == 0 {
        Move(3, 0);
      } else {
        Cascade();
      }
    }

    /**
     * The mask loop of _hive_timer_shift once the time is non-zero, as
     * written: `mask` starts at NEAR_SHIFT and grows by 6 bits a step.
     */
    method Cascade()
      requires Valid() && curTime != 0
      modifies near, level
      ensures ShiftMoved(curTime).None? ==> W() == old(W())
      ensures ShiftMoved(curTime).Some? ==>
                ValidBucket(ShiftMoved(curTime).value) && W() == MoveW(old(W()), ShiftMoved(curTime).value, curTime)
    {
      var time := curTime;
      MovedValid(time);
      var i: nat := 0;
      var ct: nat := time / NEAR;
      var mask: nat := NEAR_SHIFT;
      while time % mask == 0
        invariant 0 < mask
        invariant MoveLoop(time, ct, mask, i) == ShiftMoved(time)
        invariant W() == old(W())
        decreases time - mask
      {
        var idx := ct % LEVEL;
        if idx != 0 {
          Move(i, idx);
          return;
        }
        MultipleAtLeast(time, mask);
        ct := ct / LEVEL;
        mask := mask * LEVEL;
        i := i + 1;
      }
    }

    /** _timer_update: dispatch what is due now, then advance the time. */
    method Tick() returns (sent: seq<Send>)
      requires Valid()
      modifies this, near, level
      ensures Valid() && near == old(near) && level == old(level)
      ensures lastRealTime == old(lastRealTime) && session == old(session)
      ensures curTime as nat == (old(curTime) as nat + 1) % U32_MOD
      ensures W() == ShiftW(ExecW(old(W()), old(curTime)), old(curTime))
      ensures sent == Sends(Due(old(W()), old(curTime)))
    {
      sent := Exec();
      Shift();
    }

    /**
     * hive_timer_update with the wall clock read as `now` (in 10 ms units):
     * the reading is recorded; a clock that went backwards is reported as
     * an error and runs no tick; otherwise one tick runs per unit elapsed.
     */
    method Update(now: nat) returns (sent: seq<Send>, regressed: bool)
      requires Valid()
      modifies this, near, level
      ensures Valid() && near == old(near) && level == old(level)
      ensures lastRealTime == now && session == old(session)
      ensures regressed <==> now < old(lastRealTime)
      ensures regressed ==> sent == [] && curTime == old(curTime) && W() == old(W())
      ensures !regressed ==>
                var r := Run(old(W()), old(curTime), now - old(lastRealTime));
                W() == r.w && curTime == r.cur && sent == Sends(r.fired)
    {
      var last := lastRealTime;
      lastRealTime := now;
      sent := [];
      if now < last {
        regressed := true;
      } else {
        regressed := false;
        var diff := now - last;
        ghost var w0 := W();
        ghost var c0 := curTime;
        var i := 0;
        while i < diff
          invariant 0 <= i <= diff
          invariant Valid() && near == old(near) && level == old(level)
          invariant lastRealTime == now && session == old(session)
          invariant var r := Run(w0, c0, i); W() == r.w && curTime == r.cur && sent == Sends(r.fired)
        {
          RunLast(w0, c0, i + 1);
          SendsAppend(Run(w0, c0, i).fired, Due(W(), curTime));
          var s := Tick();
          sent := sent + s;
          i := i + 1;
        }
      }
    }

    /**
     * hive_timer_insert: take the next session, create a node due `offset`
     * ticks from now (modulo 2^32) for `handle`, add it, and return the session.
     */
    method Insert(offset: u32, handle: u32) returns (s: int)
      requires Valid()
      modifies this, near, level
      ensures Valid() && near == old(near) && level == old(level)
      ensures curTime == old(curTime) && lastRealTime == old(lastRealTime)
      ensures s == old(session) && session == old(session) + 1
      ensures W() == AddW(old(W()), NewNode(curTime, offset, s, handle), curTime)
    {
      s := session;
      session := session + 1;
      var n := NewNode(curTime, offset, s, handle);
      Add(n);
    }
  }
}
