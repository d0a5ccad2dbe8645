/**
 * The integer-keyed chained scatter table of src/actor_gate/imap.c.
 *
 * A key lives in the slot chain that starts at its main position
 * `key % size`; chains are threaded through the `next` links of the slots,
 * free slots are handed out by a cursor `lastfree` that only moves down,
 * removed keys leave `IS_REMOVE` tombstones, and a full table is rebuilt
 * at the smallest size 8·2^k above the number of live keys.
 *
 * This module models the table as the code evidently intends it; the
 * three places where imap_set departs from that are modelled as written
 * in ImapAsWritten.
 */
module Imap {
  import opened Common

  datatype Status = IsNone | IsExist | IsRemove

  /** One slot; `next` is the index of the next slot of the chain, or NIL. */
  datatype Slot = Slot(key: int, value: int, status: Status, next: int)

  const NIL: int := -1
  const DEFAULT_IMAP_SLOT_SIZE: nat := 8

  /** A slot as `hive_calloc` leaves it. */
  const FreeSlot: Slot := Slot(0, 0, IsNone, NIL)

  /** _imap_hash: the main position of a (non-negative) key. */
  function Hash(key: int, size: nat): (h: nat)
    requires key >= 0 && size > 0
    ensures h < size
  {
    key % size
  }

  /* ---------------------------------------------------------------- */
  /* Chains                                                           */
  /* ---------------------------------------------------------------- */

  /**
   * Every `next` link stays inside the table and leads to a slot of lower
   * rank, so following links always ends at NIL.
   */
  ghost predicate Linked(s: seq<Slot>, rank: seq<nat>)
  {
    && |rank| == |s|
    && forall i {:trigger s[i].next} :: 0 <= i < |s| && s[i].next != NIL ==> 0 <= s[i].next < |s| && rank[s[i].next] < rank[i]
  }

  /** Slot `j` is on the chain that starts at slot `i`. */
  ghost predicate Reaches(s: seq<Slot>, rank: seq<nat>, i: int, j: int)
    requires Linked(s, rank) && 0 <= i < |s|
    decreases rank[i]
  {
    i == j || (s[i].next != NIL && Reaches(s, rank, s[i].next, j))
  }

  /** Chains compose. */
  lemma {:induction false} ReachesTrans(s: seq<Slot>, rank: seq<nat>, i: int, j: int, k: int)
    requires Linked(s, rank) && 0 <= i < |s| && 0 <= j < |s|
    requires Reaches(s, rank, i, j) && Reaches(s, rank, j, k)
    ensures Reaches(s, rank, i, k)
    decreases rank[i]
  {
    if i != j {
      ReachesTrans(s, rank, s[i].next, j, k);
    }
  }

  /** Changing keys, values or statuses, but no link, changes no chain. */
  lemma SameLinksLinked(s: seq<Slot>, t: seq<Slot>, rank: seq<nat>)
    requires Linked(s, rank) && |t| == |s|
    requires forall x :: 0 <= x < |s| ==> t[x].next == s[x].next
    ensures Linked(t, rank)
  {
  }

  lemma {:induction false} SameLinksReach(s: seq<Slot>, t: seq<Slot>, rank: seq<nat>, i: int, j: int)
    requires Linked(s, rank) && Linked(t, rank) && |t| == |s| && 0 <= i < |s|
    requires forall x :: 0 <= x < |s| ==> t[x].next == s[x].next
    ensures Reaches(s, rank, i, j) <==> Reaches(t, rank, i, j)
    decreases rank[i]
  {
    if i != j && s[i].next != NIL {
      SameLinksReach(s, t, rank, s[i].next, j);
    }
  }

  /**
   * Ranks after slot `np` is linked in behind a slot whose old successor
   * was `q`: all ranks are doubled and shifted, which keeps every old link
   * descending and leaves room for `np` between its neighbours.
   */
  function Rerank(rank: seq<nat>, np: int, q: int): (r: seq<nat>)
    requires q == NIL || 0 <= q < |rank|
    ensures |r| == |rank|
  {
    seq(|rank|, x requires 0 <= x < |rank| => if x == np then (if q == NIL then 1 else 2 * rank[q] + 3) else 2 * rank[x] + 2)
  }

  /**
   * The links of `t` are those of `s` with the free slot `np` spliced in
   * right behind slot `h`.
   */
  ghost predicate SplicedAfter(s: seq<Slot>, t: seq<Slot>, h: int, np: int)
  {
    && |t| == |s| && 0 <= h < |s| && 0 <= np < |s| && h != np
    && s[np].next == NIL
    && (forall x {:trigger s[x].next} :: 0 <= x < |s| ==> s[x].next != np)
    && t[h].next == np && t[np].next == s[h].next
    && (forall x {:trigger t[x].next} :: 0 <= x < |s| && x != h && x != np ==> t[x].next == s[x].next)
  }

  lemma SpliceLinked(s: seq<Slot>, rank: seq<nat>, t: seq<Slot>, h: int, np: int)
    requires Linked(s, rank) && SplicedAfter(s, t, h, np)
    ensures Linked(t, Rerank(rank, np, s[h].next))
  {
    var r := Rerank(rank, np, s[h].next);
    forall i | 0 <= i < |t| && t[i].next != NIL
      ensures 0 <= t[i].next < |t| && r[t[i].next] < r[i]
    {
      if i == h {
        assert s[h].next == NIL || rank[s[h].next] < rank[h];
      }
    }
  }

  /** Splicing keeps every old chain and puts `np` on the chain of `h`. */
  lemma {:induction false} SpliceReach(s: seq<Slot>, rank: seq<nat>, t: seq<Slot>, h: int, np: int, i: int, j: int)
    requires Linked(s, rank) && SplicedAfter(s, t, h, np) && 0 <= i < |s|
    requires Linked(t, Rerank(rank, np, s[h].next))
    requires Reaches(s, rank, i, j)
    ensures Reaches(t, Rerank(rank, np, s[h].next), i, j)
    decreases rank[i]
  {
    var r := Rerank(rank, np, s[h].next);
    if i != j {
      var x := s[i].next;
      SpliceReach(s, rank, t, h, np, x, j);
      if i == h {
        assert t[np].next == x;
        assert Reaches(t, r, np, j);
      }
    }
  }

  lemma SpliceNew(s: seq<Slot>, rank: seq<nat>, t: seq<Slot>, h: int, np: int)
    requires Linked(s, rank) && SplicedAfter(s, t, h, np)
    requires Linked(t, Rerank(rank, np, s[h].next))
    ensures Reaches(t, Rerank(rank, np, s[h].next), h, np)
  {
    var r := Rerank(rank, np, s[h].next);
    assert Reaches(t, r, np, np);
  }

  /* ---------------------------------------------------------------- */
  /* Counting slots                                                   */
  /* ---------------------------------------------------------------- */

  /** The number of slots in status `st`. */
  function CountStatus(s: seq<Slot>, st: Status): (n: nat)
    ensures n <= |s|
  {
    if s == [] then 0 else CountStatus(s[..|s| - 1], st) + (if s[|s| - 1].status == st then 1 else 0)
  }

  /** Rewriting one slot changes the count by what that slot's status did. */
  lemma {:induction false} CountUpdate(s: seq<Slot>, i: int, x: Slot, st: Status)
    requires 0 <= i < |s|
    ensures CountStatus(s[i := x], st) ==
              CountStatus(s, st) - (if s[i].status == st then 1 else 0) + (if x.status == st then 1 else 0)
    decreases |s|
  {
    var t := s[i := x];
    if i < |s| - 1 {
      assert t[..|t| - 1] == s[..|s| - 1][i := x];
      CountUpdate(s[..|s| - 1], i, x, st);
    } else {
      assert t[..|t| - 1] == s[..|s| - 1];
    }
  }

  /** Counting a prefix one slot further. */
  lemma CountPrefix(s: seq<Slot>, i: int, st: Status)
    requires 0 <= i < |s|
    ensures CountStatus(s[..i + 1], st) == CountStatus(s[..i], st) + (if s[i].status == st then 1 else 0)
  {
    assert s[..i + 1][..i] == s[..i];
  }

  /** A table with fewer used slots than slots has a free one. */
  lemma {:induction false} FreeExists(s: seq<Slot>)
    requires forall i :: 0 <= i < |s| ==> s[i].status != IsRemove
    requires CountStatus(s, IsExist) < |s|
    ensures exists i :: 0 <= i < |s| && s[i].status == IsNone
    decreases |s|
  {
    if s[|s| - 1].status != IsNone {
      FreeExists(s[..|s| - 1]);
      var i :| 0 <= i < |s| - 1 && s[..|s| - 1][i].status == IsNone;
      assert s[i].status == IsNone;
    }
  }

  /** A table of calloc'd slots has no live slot. */
  lemma {:induction false} CountFree(n: nat, st: Status)
    requires st != IsNone
    ensures CountStatus(seq(n, _ => FreeSlot), st) == 0
    decreases n
  {
    if n > 0 {
      assert seq(n, _ => FreeSlot)[..n - 1] == seq(n - 1, _ => FreeSlot);
      CountFree(n - 1, st);
    }
  }

  /* ---------------------------------------------------------------- */
  /* The table invariant, on values                                   */
  /* ---------------------------------------------------------------- */

  /** Every slot at or above the free cursor is in use. */
  ghost predicate FreeBelow(s: seq<Slot>, lastfree: int)
  {
    forall i :: lastfree <= i < |s| && 0 <= i ==> s[i].status != IsNone
  }

  /**
   * The chains hold exactly `contents`: `loc` places every key in a live
   * slot on the chain of its main position (whose slot is in use), every
   * live slot is the place of its key, free slots are unlinked, and no link
   * leads to a free slot.
   */
  ghost predicate Holds(s: seq<Slot>, rank: seq<nat>, contents: map<int, int>, loc: map<int, int>)
  {
    && |s| > 0
    && Linked(s, rank)
    && loc.Keys == contents.Keys
    && Unlinked(s)
    && Owned(s, loc)
    && AllPlaced(s, rank, contents, loc)
  }

  /** Free slots are not linked, and no link leads to a free slot. */
  ghost predicate Unlinked(s: seq<Slot>)
  {
    && (forall i {:trigger s[i].next} :: 0 <= i < |s| && s[i].status == IsNone ==> s[i].next == NIL)
    && (forall i {:trigger s[i].next} :: 0 <= i < |s| && 0 <= s[i].next < |s| ==> s[s[i].next].status != IsNone)
  }

  /** Every live slot is the place of its key. */
  ghost predicate Owned(s: seq<Slot>, loc: map<int, int>)
  {
    forall i :: 0 <= i < |s| && s[i].status == IsExist ==> s[i].key in loc && loc[s[i].key] == i
  }

  ghost predicate AllPlaced(s: seq<Slot>, rank: seq<nat>, contents: map<int, int>, loc: map<int, int>)
    requires |s| > 0 && Linked(s, rank) && loc.Keys == contents.Keys
  {
    forall k {:trigger Placed(s, rank, contents, loc, k)} :: k in loc ==> Placed(s, rank, contents, loc, k)
  }

  ghost predicate Placed(s: seq<Slot>, rank: seq<nat>, contents: map<int, int>, loc: map<int, int>, k: int)
    requires |s| > 0 && Linked(s, rank) && k in loc && k in contents
  {
    && k >= 0 && 0 <= loc[k] < |s|
    && s[loc[k]] == Slot(k, contents[k], IsExist, s[loc[k]].next)
    && s[Hash(k, |s|)].status != IsNone
    && Reaches(s, rank, Hash(k, |s|), loc[k])
  }

  /* ---------------------------------------------------------------- */
  /* The table invariant under each kind of slot update               */
  /* ---------------------------------------------------------------- */

  function Tombstone(x: Slot): Slot
  {
    x.(status := IsRemove)
  }

  function WithValue(x: Slot, v: int): Slot
  {
    x.(value := v)
  }

  function WithNext(x: Slot, n: int): Slot
  {
    x.(next := n)
  }

  /** Tombstoning the slot of `k` removes exactly `k`. */
  lemma RemoveHolds(s: seq<Slot>, rank: seq<nat>, contents: map<int, int>, loc: map<int, int>, k: int)
    requires Holds(s, rank, contents, loc) && k in loc
    ensures 0 <= loc[k] < |s|
    ensures var t := s[loc[k] := Tombstone(s[loc[k]])];
            Holds(t, rank, contents - {k}, loc - {k})
  {
    assert Placed(s, rank, contents, loc, k);
    var i := loc[k];
    var t := s[i := Tombstone(s[i])];
    SameLinksLinked(s, t, rank);
    var c', l' := contents - {k}, loc - {k};
    forall k' | k' in l'
      ensures Placed(t, rank, c', l', k')
    {
      assert Placed(s, rank, contents, loc, k');
      SameLinksReach(s, t, rank, Hash(k', |s|), loc[k']);
    }
  }

  /** Overwriting the value in the slot of `k` updates exactly `k`. */
  lemma UpdateHolds(s: seq<Slot>, rank: seq<nat>, contents: map<int, int>, loc: map<int, int>, k: int, v: int)
    requires Holds(s, rank, contents, loc) && k in loc
    ensures 0 <= loc[k] < |s|
    ensures var t := s[loc[k] := WithValue(s[loc[k]], v)];
            Holds(t, rank, contents[k := v], loc)
  {
    assert Placed(s, rank, contents, loc, k);
    var i := loc[k];
    var t := s[i := WithValue(s[i], v)];
    SameLinksLinked(s, t, rank);
    var c' := contents[k := v];
    forall k' | k' in loc
      ensures Placed(t, rank, c', loc, k')
    {
      assert Placed(s, rank, contents, loc, k');
      SameLinksReach(s, t, rank, Hash(k', |s|), loc[k']);
    }
  }

  /** A new key written into its main slot, which is free or a tombstone. */
  lemma ReuseHolds(s: seq<Slot>, rank: seq<nat>, contents: map<int, int>, loc: map<int, int>, k: int, v: int)
    requires Holds(s, rank, contents, loc) && k >= 0 && k !in loc
    requires s[Hash(k, |s|)].status != IsExist
    ensures var h := Hash(k, |s|);
            var t := s[h := Slot(k, v, IsExist, s[h].next)];
            Holds(t, rank, contents[k := v], loc[k := h])
  {
    var h := Hash(k, |s|);
    var t := s[h := Slot(k, v, IsExist, s[h].next)];
    SameLinksLinked(s, t, rank);
    var c', l' := contents[k := v], loc[k := h];
    forall k' | k' in l'
      ensures Placed(t, rank, c', l', k')
    {
      if k' == k {
        assert Reaches(t, rank, h, h);
      } else {
        assert Placed(s, rank, contents, loc, k');
        SameLinksReach(s, t, rank, Hash(k', |s|), loc[k']);
      }
    }
  }

  /** Splicing a used slot in behind a used slot links no free slot. */
  lemma SpliceUnlinked(s: seq<Slot>, h: int, np: int, a: Slot, b: Slot)
    requires Unlinked(s) && 0 <= h < |s| && 0 <= np < |s| && h != np && s[np].status == IsNone
    requires a.status != IsNone && b.status != IsNone && b.next == np && a.next == s[h].next
    ensures Unlinked(s[np := a][h := b])
  {
    var t := s[np := a][h := b];
    forall i | 0 <= i < |t| && 0 <= t[i].next < |t|
      ensures t[t[i].next].status != IsNone
    {
      var j := t[i].next;
      if j != h && j != np {
        if i == h {
        } else if i == np {
          assert t[j] == s[j];
        } else {
          assert t[i] == s[i] && t[j] == s[j];
        }
      }
    }
  }

  /** The new key in the free slot `np` is owned by `np`. */
  lemma ChainOwned(s: seq<Slot>, loc: map<int, int>, h: int, np: int, a: Slot, b: Slot)
    requires Owned(s, loc) && 0 <= h < |s| && 0 <= np < |s| && h != np && s[np].status == IsNone
    requires a.key !in loc && b.key == s[h].key && b.status == s[h].status
    ensures Owned(s[np := a][h := b], loc[a.key := np])
  {
    var t := s[np := a][h := b];
    forall x | 0 <= x < |t| && t[x].status == IsExist
      ensures t[x].key in loc[a.key := np] && loc[a.key := np][t[x].key] == x
    {
      if x != h && x != np {
        assert t[x] == s[x];
      }
    }
  }

  /** The displaced key is owned by `np`, the new key by its main slot `h`. */
  lemma DisplaceOwned(s: seq<Slot>, loc: map<int, int>, h: int, np: int, a: Slot, b: Slot)
    requires Owned(s, loc) && 0 <= h < |s| && 0 <= np < |s| && h != np && s[np].status == IsNone
    requires s[h].status == IsExist && a.key == s[h].key && b.key !in loc
    ensures Owned(s[np := a][h := b], loc[a.key := np][b.key := h])
  {
    var t := s[np := a][h := b];
    var l' := loc[a.key := np][b.key := h];
    forall x | 0 <= x < |t| && t[x].status == IsExist
      ensures t[x].key in l' && l'[t[x].key] == x
    {
      if x != h && x != np {
        assert t[x] == s[x];
        assert loc[s[x].key] == x;
      }
    }
  }

  /**
   * A new key whose main slot is taken by a key of the same chain goes
   * into the free slot `np`, spliced in right behind the main slot.
   */
  lemma ChainHolds(s: seq<Slot>, rank: seq<nat>, contents: map<int, int>, loc: map<int, int>, k: int, v: int, np: int)
    requires Holds(s, rank, contents, loc) && k >= 0 && k !in loc
    requires s[Hash(k, |s|)].status == IsExist && 0 <= np < |s| && s[np].status == IsNone
    ensures var h := Hash(k, |s|);
            var t := s[np := Slot(k, v, IsExist, s[h].next)][h := WithNext(s[h], np)];
            && (s[h].next == NIL || 0 <= s[h].next < |s|)
            && Holds(t, Rerank(rank, np, s[h].next), contents[k := v], loc[k := np])
  {
    var h := Hash(k, |s|);
    var t := s[np := Slot(k, v, IsExist, s[h].next)][h := WithNext(s[h], np)];
    assert SplicedAfter(s, t, h, np);
    SpliceLinked(s, rank, t, h, np);
    var r := Rerank(rank, np, s[h].next);
    var c', l' := contents[k := v], loc[k := np];
    SpliceUnlinked(s, h, np, Slot(k, v, IsExist, s[h].next), WithNext(s[h], np));
    ChainOwned(s, loc, h, np, Slot(k, v, IsExist, s[h].next), WithNext(s[h], np));
    forall k' | k' in l'
      ensures Placed(t, r, c', l', k')
    {
      if k' == k {
        SpliceNew(s, rank, t, h, np);
      } else {
        assert Placed(s, rank, contents, loc, k');
        SpliceReach(s, rank, t, h, np, Hash(k', |s|), loc[k']);
      }
    }
    assert AllPlaced(t, r, c', l');
  }

  /**
   * A new key whose main slot is taken by a key of another chain takes
   * over its main slot; the displaced entry, status included, moves to the
   * free slot `np`, spliced in right behind it.
   */
  lemma DisplaceHolds(s: seq<Slot>, rank: seq<nat>, contents: map<int, int>, loc: map<int, int>, k: int, v: int, np: int)
    requires Holds(s, rank, contents, loc) && k >= 0 && k !in loc
    requires s[Hash(k, |s|)].status == IsExist && 0 <= np < |s| && s[np].status == IsNone
    ensures var h := Hash(k, |s|);
            var t := s[np := Slot(s[h].key, s[h].value, IsExist, s[h].next)][h := Slot(k, v, IsExist, np)];
            && (s[h].next == NIL || 0 <= s[h].next < |s|)
            && Holds(t, Rerank(rank, np, s[h].next), contents[k := v], loc[s[h].key := np][k := h])
  {
    var h := Hash(k, |s|);
    var m := s[h].key;
    var t := s[np := Slot(m, s[h].value, IsExist, s[h].next)][h := Slot(k, v, IsExist, np)];
    assert SplicedAfter(s, t, h, np);
    SpliceLinked(s, rank, t, h, np);
    var r := Rerank(rank, np, s[h].next);
    var c', l' := contents[k := v], loc[m := np][k := h];
    assert Placed(s, rank, contents, loc, m);
    SpliceUnlinked(s, h, np, Slot(m, s[h].value, IsExist, s[h].next), Slot(k, v, IsExist, np));
    DisplaceOwned(s, loc, h, np, Slot(m, s[h].value, IsExist, s[h].next), Slot(k, v, IsExist, np));
    forall k' | k' in l'
      ensures Placed(t, r, c', l', k')
    {
      if k' == k {
        assert Reaches(t, r, h, h);
      } else if k' == m {
        SpliceReach(s, rank, t, h, np, Hash(m, |s|), h);
        SpliceNew(s, rank, t, h, np);
        ReachesTrans(t, r, Hash(m, |s|), h, np);
      } else {
        assert Placed(s, rank, contents, loc, k');
        SpliceReach(s, rank, t, h, np, Hash(k', |s|), loc[k']);
      }
    }
    assert AllPlaced(t, r, c', l');
  }

  /* ---------------------------------------------------------------- */
  /* Sizes, tombstones and counts                                     */
  /* ---------------------------------------------------------------- */

  /** A table size the code produces: 8 doubled some number of times. */
  ghost predicate SizeOk(n: int)
    decreases n
  {
    n == DEFAULT_IMAP_SLOT_SIZE || (n > DEFAULT_IMAP_SLOT_SIZE && n % 2 == 0 && SizeOk(n / 2))
  }

  /** No slot is a tombstone, as in a freshly rebuilt table. */
  ghost predicate NoRemove(s: seq<Slot>)
  {
    forall i :: 0 <= i < |s| ==> s[i].status != IsRemove
  }

  /** Counting a prefix never gives more than counting the whole. */
  lemma {:induction false} CountPrefixLe(s: seq<Slot>, i: int, st: Status)
    requires 0 <= i <= |s|
    ensures CountStatus(s[..i], st) <= CountStatus(s, st)
    decreases |s| - i
  {
    if i < |s| {
      CountPrefix(s, i, st);
      CountPrefixLe(s, i + 1, st);
    } else {
      assert s[..i] == s;
    }
  }

  /** No two live slots hold the same key. */
  lemma NoDuplicates(s: seq<Slot>, rank: seq<nat>, contents: map<int, int>, loc: map<int, int>, i: int, j: int)
    requires Holds(s, rank, contents, loc) && 0 <= i < |s| && 0 <= j < |s|
    requires s[i].status == IsExist && s[j].status == IsExist && s[i].key == s[j].key
    ensures i == j
  {
  }

  /** The empty table of `n` calloc'd slots holds nothing. */
  lemma EmptyHolds(s: seq<Slot>)
    requires |s| > 0 && forall i :: 0 <= i < |s| ==> s[i] == FreeSlot
    ensures Holds(s, seq(|s|, _ => 0), map[], map[])
    ensures CountStatus(s, IsExist) == 0 && NoRemove(s) && FreeBelow(s, |s|)
  {
    assert s == seq(|s|, _ => FreeSlot);
    CountFree(|s|, IsExist);
  }

  /* ---------------------------------------------------------------- */
  /* The whole table state, on values                                 */
  /* ---------------------------------------------------------------- */

  /**
   * A table state the code keeps: a size of 8·2^k, no free slot at or
   * above the cursor, chains holding `contents`, and `count` both the
   * number of live slots and the number of keys.
   */
  ghost predicate TableOk(s: seq<Slot>, lastfree: int, count: int, rank: seq<nat>, contents: map<int, int>, loc: map<int, int>)
  {
    && 0 <= lastfree <= |s|
    && SizeOk(|s|)
    && FreeBelow(s, lastfree)
    && Holds(s, rank, contents, loc)
    && count == CountStatus(s, IsExist)
    && count == |contents|
  }

  /** imap_remove's write keeps the table state, one key fewer. */
  lemma RemoveOk(s: seq<Slot>, lastfree: int, count: int, rank: seq<nat>, contents: map<int, int>, loc: map<int, int>, k: int)
    requires TableOk(s, lastfree, count, rank, contents, loc) && k in loc
    ensures 0 <= loc[k] < |s| && s[loc[k]].status == IsExist
    ensures TableOk(s[loc[k] := Tombstone(s[loc[k]])], lastfree, count - 1, rank, contents - {k}, loc - {k})
  {
    assert Placed(s, rank, contents, loc, k);
    RemoveHolds(s, rank, contents, loc, k);
    CountUpdate(s, loc[k], Tombstone(s[loc[k]]), IsExist);
  }

  /** Overwriting the value of a present key keeps the table state. */
  lemma UpdateOk(s: seq<Slot>, lastfree: int, count: int, rank: seq<nat>, contents: map<int, int>, loc: map<int, int>, k: int, v: int)
    requires TableOk(s, lastfree, count, rank, contents, loc) && k in loc
    ensures 0 <= loc[k] < |s|
    ensures TableOk(s[loc[k] := WithValue(s[loc[k]], v)], lastfree, count, rank, contents[k := v], loc)
    ensures NoRemove(s) ==> NoRemove(s[loc[k] := WithValue(s[loc[k]], v)])
  {
    assert Placed(s, rank, contents, loc, k);
    UpdateHolds(s, rank, contents, loc, k, v);
    CountUpdate(s, loc[k], WithValue(s[loc[k]], v), IsExist);
  }

  /** A new key written into its main slot keeps the table state. */
  lemma ReuseOk(s: seq<Slot>, lastfree: int, count: int, rank: seq<nat>, contents: map<int, int>, loc: map<int, int>, k: int, v: int)
    requires TableOk(s, lastfree, count, rank, contents, loc) && k >= 0 && k !in loc
    requires s[Hash(k, |s|)].status != IsExist
    ensures var h := Hash(k, |s|);
            var t := s[h := Slot(k, v, IsExist, s[h].next)];
            && TableOk(t, lastfree, count + 1, rank, contents[k := v], loc[k := h])
            && (NoRemove(s) ==> NoRemove(t))
  {
    var h := Hash(k, |s|);
    ReuseHolds(s, rank, contents, loc, k, v);
    CountUpdate(s, h, Slot(k, v, IsExist, s[h].next), IsExist);
  }

  /** A new key chained into the free slot `np` keeps the table state. */
  lemma ChainOk(s: seq<Slot>, np: int, count: int, rank: seq<nat>, contents: map<int, int>, loc: map<int, int>, k: int, v: int)
    requires 0 <= np < |s| && s[np].status == IsNone
    requires TableOk(s, np + 1, count, rank, contents, loc) && k >= 0 && k !in loc
    requires s[Hash(k, |s|)].status == IsExist
    ensures var h := Hash(k, |s|);
            var t := s[np := Slot(k, v, IsExist, s[h].next)][h := WithNext(s[h], np)];
            && (s[h].next == NIL || 0 <= s[h].next < |s|)
            && TableOk(t, np, count + 1, Rerank(rank, np, s[h].next), contents[k := v], loc[k := np])
            && (NoRemove(s) ==> NoRemove(t))
  {
    var h := Hash(k, |s|);
    ChainHolds(s, rank, contents, loc, k, v, np);
    CountUpdate(s, np, Slot(k, v, IsExist, s[h].next), IsExist);
    CountUpdate(s[np := Slot(k, v, IsExist, s[h].next)], h, WithNext(s[h], np), IsExist);
  }

  /** A new key displacing its main slot's entry into `np` keeps the table state. */
  lemma DisplaceOk(s: seq<Slot>, np: int, count: int, rank: seq<nat>, contents: map<int, int>, loc: map<int, int>, k: int, v: int)
    requires 0 <= np < |s| && s[np].status == IsNone
    requires TableOk(s, np + 1, count, rank, contents, loc) && k >= 0 && k !in loc
    requires s[Hash(k, |s|)].status == IsExist
    ensures var h := Hash(k, |s|);
            var t := s[np := Slot(s[h].key, s[h].value, IsExist, s[h].next)][h := Slot(k, v, IsExist, np)];
            && (s[h].next == NIL || 0 <= s[h].next < |s|)
            && TableOk(t, np, count + 1, Rerank(rank, np, s[h].next), contents[k := v], loc[s[h].key := np][k := h])
            && (NoRemove(s) ==> NoRemove(t))
  {
    var h := Hash(k, |s|);
    var a := Slot(s[h].key, s[h].value, IsExist, s[h].next);
    DisplaceHolds(s, rank, contents, loc, k, v, np);
    CountUpdate(s, np, a, IsExist);
    CountUpdate(s[np := a], h, Slot(k, v, IsExist, np), IsExist);
  }

  /** The entries of `contents` whose slot lies below `i`. */
  ghost function Below(contents: map<int, int>, loc: map<int, int>, i: int): (m: map<int, int>)
    ensures m.Keys <= contents.Keys
  {
    map k | k in contents && k in loc && loc[k] < i :: contents[k]
  }

  /** Walking the old slots in order adds each live entry once. */
  lemma BelowStep(s: seq<Slot>, rank: seq<nat>, contents: map<int, int>, loc: map<int, int>, i: int)
    requires Holds(s, rank, contents, loc) && 0 <= i < |s|
    ensures s[i].status != IsExist ==> Below(contents, loc, i + 1) == Below(contents, loc, i)
    ensures s[i].status == IsExist ==>
              && s[i].key >= 0 && s[i].key !in Below(contents, loc, i)
              && Below(contents, loc, i + 1) == Below(contents, loc, i)[s[i].key := s[i].value]
  {
    if s[i].status == IsExist {
      assert Placed(s, rank, contents, loc, s[i].key);
    }
    forall k | k in contents
      ensures k in loc && (loc[k] == i <==> s[i].status == IsExist && k == s[i].key)
    {
      assert Placed(s, rank, contents, loc, k);
    }
  }

  /** Before the first slot, no entry has been added. */
  lemma BelowNone(s: seq<Slot>, rank: seq<nat>, contents: map<int, int>, loc: map<int, int>)
    requires Holds(s, rank, contents, loc)
    ensures Below(contents, loc, 0) == map[]
  {
    forall k | k in contents
      ensures k in loc && loc[k] >= 0
    {
      assert Placed(s, rank, contents, loc, k);
    }
  }

  /** Past the last slot, every entry has been added. */
  lemma BelowAll(s: seq<Slot>, rank: seq<nat>, contents: map<int, int>, loc: map<int, int>)
    requires Holds(s, rank, contents, loc)
    ensures Below(contents, loc, |s|) == contents
  {
    forall k | k in contents
      ensures k in loc && loc[k] < |s|
    {
      assert Placed(s, rank, contents, loc, k);
    }
  }

  /** Lines 57-63 of _imap_rehash: the smallest size 8·2^k above `n`. */
  method GrownSize(n: nat) returns (size: nat)
    ensures SizeOk(size) && size > n
    ensures size == DEFAULT_IMAP_SLOT_SIZE || size <= 2 * n
  {
    size := DEFAULT_IMAP_SLOT_SIZE;
    while size <= n
      invariant SizeOk(size)
      invariant size == DEFAULT_IMAP_SLOT_SIZE || size <= 2 * n
    {
      size := size * 2;
    }
  }

  /* ---------------------------------------------------------------- */
  /* The table                                                        */
  /* ---------------------------------------------------------------- */

  /**
   * struct imap_context. `lastfree` is the index the free cursor points at
   * (the code keeps a pointer into `slots`); `contents` is the map the
   * table stands for, `loc` the slot of each key, `rank` a measure that
   * shows every chain ends.
   */
  class IntMap {
    var slots: array<Slot>
    var count: nat
    var lastfree: nat
    ghost var contents: map<int, int>
    ghost var loc: map<int, int>
    ghost var rank: seq<nat>

    ghost predicate Valid()
      reads this, slots
    {
      TableOk(slots[..], lastfree, count, rank, contents, loc)
    }

    /** imap_create: eight free slots, the cursor past the last one. */
    constructor ()
      ensures Valid() && fresh(slots)
      ensures contents == map[] && count == 0
      ensures slots.Length == DEFAULT_IMAP_SLOT_SIZE && lastfree == slots.Length
    {
      slots := new Slot[DEFAULT_IMAP_SLOT_SIZE](_ => FreeSlot);
      count := 0;
      lastfree := DEFAULT_IMAP_SLOT_SIZE;
      contents := map[];
      loc := map[];
      rank := seq(DEFAULT_IMAP_SLOT_SIZE, _ => 0);
      new;
      EmptyHolds(slots[..]);
    }

    /**
     * _imap_query: walk the chain of the key's main position; the slot
     * found is the key's place, and a key that is not in the map is not
     * found.
     */
    method Find(key: int) returns (i: int)
      requires Valid() && key >= 0
      ensures key in contents ==> key in loc && i == loc[key] && 0 <= i < slots.Length
      ensures key in contents ==> slots[i] == Slot(key, contents[key], IsExist, slots[i].next)
      ensures key !in contents ==> i == NIL
    {
      var h := Hash(key, slots.Length);
      if key in contents {
        assert Placed(slots[..], rank, contents, loc, key);
        assert slots[loc[key]] == slots[..][loc[key]];
      }
      if slots[h].status == IsNone {
        return NIL;
      }
      var p := h;
      while p != NIL
        invariant p == NIL || 0 <= p < slots.Length
        invariant key in contents ==> p != NIL && Reaches(slots[..], rank, p, loc[key])
        decreases if p == NIL then 0 else rank[p] + 1
      {
        if slots[p].key == key && slots[p].status == IsExist {
          return p;
        }
        p := slots[p].next;
      }
      return NIL;
    }

    /** imap_query: the value of the key, or nothing. */
    method Query(key: int) returns (r: Option<int>)
      requires Valid() && key >= 0
      ensures r == if key in contents then Some(contents[key]) else None
    {
      var i := Find(key);
      if i == NIL {
        return None;
      }
      assert Placed(slots[..], rank, contents, loc, key);
      return Some(slots[i].value);
    }

    /** imap_remove: tombstone the key's slot and hand back its value. */
    method Remove(key: int) returns (r: Option<int>)
      requires Valid() && key >= 0
      modifies this, slots
      ensures Valid() && slots == old(slots)
      ensures contents == old(contents) - {key}
      ensures r == if key in old(contents) then Some(old(contents)[key]) else None
    {
      var i := Find(key);
      if i == NIL {
        return None;
      }
      ghost var s := slots[..];
      RemoveOk(s, lastfree, count, rank, contents, loc, key);
      assert Placed(s, rank, contents, loc, key);
      r := Some(slots[i].value);
      count := count - 1;
      slots[i] := Tombstone(slots[i]);
      assert slots[..] == s[i := Tombstone(s[i])];
      contents := contents - {key};
      loc := loc - {key};
    }

    /**
     * _imap_getfree: move the cursor down to the next free slot; finding
     * none means no slot at all is free.
     */
    method GetFree() returns (np: int)
      requires lastfree <= slots.Length && FreeBelow(slots[..], lastfree)
      modifies this
      ensures slots == old(slots) && count == old(count)
      ensures contents == old(contents) && loc == old(loc) && rank == old(rank)
      ensures lastfree <= old(lastfree)
      ensures np == NIL ==> lastfree == 0 && FreeBelow(slots[..], 0)
      ensures np != NIL ==> np == lastfree < slots.Length && slots[np].status == IsNone && FreeBelow(slots[..], np + 1)
    {
      while lastfree > 0
        invariant slots == old(slots) && count == old(count)
        invariant contents == old(contents) && loc == old(loc) && rank == old(rank)
        invariant lastfree <= old(lastfree) && FreeBelow(slots[..], lastfree)
      {
        lastfree := lastfree - 1;
        if slots[lastfree].status == IsNone {
          return lastfree;
        }
      }
      return NIL;
    }

    /**
     * The part of imap_set that adds a key the table does not hold: into
     * its main slot when that is not live, else into a free slot spliced
     * behind the main slot, moving the main slot's entry there when it
     * belongs to another chain. Fails, changing no entry, when no slot is
     * free.
     */
    method Place(key: int, value: int) returns (ok: bool)
      requires Valid() && key >= 0 && key !in contents
      modifies this, slots
      ensures Valid() && slots == old(slots)
      ensures ok ==> contents == old(contents)[key := value] && count == old(count) + 1
      ensures !ok ==> contents == old(contents) && count == old(count)
      ensures !ok ==> slots[..] == old(slots[..]) && forall i :: 0 <= i < slots.Length ==> slots[i].status != IsNone
      ensures NoRemove(old(slots[..])) ==> NoRemove(slots[..])
    {
      ghost var s := slots[..];
      var h := Hash(key, slots.Length);
      var p := slots[h];
      if p.status != IsExist {
        ReuseOk(s, lastfree, count, rank, contents, loc, key, value);
        slots[h] := Slot(key, value, IsExist, p.next);
        assert slots[..] == s[h := Slot(key, value, IsExist, p.next)];
        count := count + 1;
        contents := contents[key := value];
        loc := loc[key := h];
        return true;
      }
      var np := GetFree();
      assert slots[..] == s;
      if np == NIL {
        return false;
      }
      Splice(key, value, np);
      ok := true;
    }

    /**
     * Lines 147-161 of imap_set: link the free slot `np` in behind the
     * key's live main slot and write the key into `np` when the main
     * slot's entry is on its own chain; otherwise move that entry to `np`
     * and write the key into its main slot.
     */
    method Splice(key: int, value: int, np: int)
      requires 0 <= np < slots.Length && slots[np].status == IsNone && key >= 0 && key !in contents
      requires lastfree == np && TableOk(slots[..], np + 1, count, rank, contents, loc)
      requires slots[Hash(key, slots.Length)].status == IsExist
      modifies this, slots
      ensures Valid() && slots == old(slots)
      ensures contents == old(contents)[key := value] && count == old(count) + 1
      ensures NoRemove(old(slots[..])) ==> NoRemove(slots[..])
    {
      var h := Hash(key, slots.Length);
      var p := slots[h];
      assert Owned(slots[..], loc) && slots[..][h] == p;
      assert Placed(slots[..], rank, contents, loc, p.key);
      if Hash(p.key, slots.Length) == h {
        ChainNew(key, value, np);
      } else {
        Displace(key, value, np);
      }
    }

    /** Lines 148-151 and 158-161: the key goes into `np`, behind its main slot. */
    method ChainNew(key: int, value: int, np: int)
      requires 0 <= np < slots.Length && slots[np].status == IsNone && key >= 0 && key !in contents
      requires lastfree == np && TableOk(slots[..], np + 1, count, rank, contents, loc)
      requires slots[Hash(key, slots.Length)].status == IsExist
      modifies this, slots
      ensures Valid() && slots == old(slots)
      ensures contents == old(contents)[key := value] && count == old(count) + 1
      ensures NoRemove(old(slots[..])) ==> NoRemove(slots[..])
    {
      ghost var s := slots[..];
      var h := Hash(key, slots.Length);
      var p := slots[h];
      assert p == s[h];
      ChainOk(s, np, count, rank, contents, loc, key, value);
      slots[np] := Slot(key, value, IsExist, p.next);
      slots[h] := WithNext(p, np);
      assert slots[..] == s[np := Slot(key, value, IsExist, p.next)][h := WithNext(p, np)];
      count, rank, contents, loc := count + 1, Rerank(rank, np, p.next), contents[key := value], loc[key := np];
    }

    /**
     * Lines 148-149, 153-154 and 158-161: the main slot's entry, which
     * belongs to another chain, moves to `np`; the key takes its main slot.
     */
    method Displace(key: int, value: int, np: int)
      requires 0 <= np < slots.Length && slots[np].status == IsNone && key >= 0 && key !in contents
      requires lastfree == np && TableOk(slots[..], np + 1, count, rank, contents, loc)
      requires slots[Hash(key, slots.Length)].status == IsExist
      modifies this, slots
      ensures Valid() && slots == old(slots)
      ensures contents == old(contents)[key := value] && count == old(count) + 1
      ensures NoRemove(old(slots[..])) ==> NoRemove(slots[..])
    {
      ghost var s := slots[..];
      var h := Hash(key, slots.Length);
      var p := slots[h];
      assert p == s[h];
      DisplaceOk(s, np, count, rank, contents, loc, key, value);
      slots[np] := Slot(p.key, p.value, IsExist, p.next);
      slots[h] := Slot(key, value, IsExist, np);
      assert slots[..] == s[np := Slot(p.key, p.value, IsExist, p.next)][h := Slot(key, value, IsExist, np)];
      count, rank, contents, loc := count + 1, Rerank(rank, np, p.next), contents[key := value], loc[p.key := np][key := h];
    }

    /**
     * imap_set: overwrite the key's value when the key is present (in the
     * slot where it was found), otherwise add it, rebuilding the table
     * first when no slot is free. The key is looked up whenever its main
     * slot is in use, tombstone or not.
     */
    method Set(key: int, value: int)
      requires Valid() && key >= 0
      modifies this, slots
      ensures Valid()
      ensures contents == old(contents)[key := value]
    {
      var i := Find(key);
      if i != NIL {
        ghost var s := slots[..];
        UpdateOk(s, lastfree, count, rank, contents, loc, key, value);
        slots[i] := WithValue(slots[i], value);
        assert slots[..] == s[i := WithValue(s[i], value)];
        contents := contents[key := value];
        return;
      }
      var ok := Place(key, value);
      if !ok {
        Rehash();
        FreeExists(slots[..]);
        ok := Place(key, value);
        assert ok;
      }
    }

    /**
     * _imap_rehash: move every live entry, in slot order, into a fresh
     * table of the smallest size 8·2^k above the number of keys; the keys,
     * their values and the count are kept, and no tombstone is left.
     */
    method Rehash()
      requires Valid()
      modifies this
      ensures Valid() && fresh(slots)
      ensures contents == old(contents) && count == old(count)
      ensures count < slots.Length && NoRemove(slots[..])
      ensures slots.Length == DEFAULT_IMAP_SLOT_SIZE || slots.Length <= 2 * count
    {
      var newSz := GrownSize(count);
      var oldSlots := slots;
      ghost var olds, oldContents, oldLoc, oldRank := slots[..], contents, loc, rank;
      Clear(newSz);
      Refill(oldSlots, olds, oldContents, oldLoc, oldRank);
    }

    /** Lines 65-69 of _imap_rehash: install `size` calloc'd slots, empty. */
    method Clear(size: nat)
      requires SizeOk(size)
      modifies this
      ensures Valid() && fresh(slots) && slots.Length == size && NoRemove(slots[..])
      ensures count == 0 && contents == map[]
    {
      slots := new Slot[size](_ => FreeSlot);
      lastfree := size;
      count := 0;
      contents, loc, rank := map[], map[], seq(size, _ => 0);
      EmptyHolds(slots[..]);
    }

    /** Lines 72-78 of _imap_rehash: re-add the live entries of the old slots. */
    method Refill(oldSlots: array<Slot>, ghost olds: seq<Slot>, ghost oldContents: map<int, int>,
                  ghost oldLoc: map<int, int>, ghost oldRank: seq<nat>)
      requires Valid() && oldSlots != slots && oldSlots[..] == olds
      requires Holds(olds, oldRank, oldContents, oldLoc) && CountStatus(olds, IsExist) < slots.Length
      requires count == 0 && contents == map[] && NoRemove(slots[..])
      modifies this, slots
      ensures Valid() && slots == old(slots) && NoRemove(slots[..])
      ensures contents == oldContents && count == CountStatus(olds, IsExist)
    {
      var i := 0;
      BelowNone(olds, oldRank, oldContents, oldLoc);
      while i < oldSlots.Length
        invariant 0 <= i <= oldSlots.Length == |olds|
        invariant Valid() && slots == old(slots) && NoRemove(slots[..])
        invariant count == CountStatus(olds[..i], IsExist)
        invariant contents == Below(oldContents, oldLoc, i)
      {
        var p := oldSlots[i];
        assert p == olds[i];
        BelowStep(olds, oldRank, oldContents, oldLoc, i);
        CountPrefix(olds, i, IsExist);
        if p.status == IsExist {
          CountPrefixLe(olds, i + 1, IsExist);
          FreeExists(slots[..]);
          var ok := Place(p.key, p.value);
          assert ok;
        }
        i := i + 1;
      }
      assert olds[..i] == olds;
      BelowAll(olds, oldRank, oldContents, oldLoc);
    }

  }
}
