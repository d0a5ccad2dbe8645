/**
 * imap_set and imap_remove of src/actor_gate/imap.c exactly as written,
 * on table values, with one concrete run for each place where the code
 * departs from the map it evidently means to implement. The map the code
 * means is IntMap in module Imap.
 */
module ImapAsWritten {
  import opened Common
  import opened Imap

  /** The slots, the free cursor and the live-entry count of an imap_context. */
  datatype Table = Table(slots: seq<Slot>, lastfree: int, count: int)

  /** Keys are non-negative, links stay in the table, the cursor is in range. */
  ghost predicate WellFormed(t: Table)
  {
    && |t.slots| > 0
    && 0 <= t.lastfree <= |t.slots|
    && forall i :: 0 <= i < |t.slots| ==> t.slots[i].key >= 0 && (t.slots[i].next == NIL || 0 <= t.slots[i].next < |t.slots|)
  }

  /** imap_create. */
  function Create(): (t: Table)
    ensures WellFormed(t) && |t.slots| == DEFAULT_IMAP_SLOT_SIZE && t.count == 0
  {
    Table([FreeSlot, FreeSlot, FreeSlot, FreeSlot, FreeSlot, FreeSlot, FreeSlot, FreeSlot], 8, 0)
  }

  /**
   * The chain walk shared by _imap_query and imap_set: the first slot from
   * `p` on holding `key` live, or NIL. `fuel` bounds the walk by the table
   * size, which a chain without cycles never exceeds.
   */
  function Walk(s: seq<Slot>, p: int, key: int, fuel: nat): (r: int)
    ensures r == NIL || (0 <= r < |s| && s[r].key == key && s[r].status == IsExist)
    decreases fuel
  {
    if fuel == 0 || !(0 <= p < |s|) then NIL
    else if s[p].key == key && s[p].status == IsExist then p
    else Walk(s, s[p].next, key, fuel - 1)
  }

  /** _imap_query: look only if the main slot was ever used. */
  function Find(t: Table, key: int): (r: int)
    requires WellFormed(t) && key >= 0
    ensures r == NIL || (0 <= r < |t.slots| && t.slots[r].key == key && t.slots[r].status == IsExist)
  {
    var h := Hash(key, |t.slots|);
    if t.slots[h].status == IsNone then NIL else Walk(t.slots, h, key, |t.slots|)
  }

  /** imap_query. */
  function Query(t: Table, key: int): (r: Option<int>)
    requires WellFormed(t) && key >= 0
    ensures r.Some? <==> Find(t, key) != NIL
  {
    var p := Find(t, key);
    if p == NIL then None else Some(t.slots[p].value)
  }

  /**
   * _imap_getfree: the cursor after the search and the free slot found
   * (equal to the cursor), or NIL with the cursor at 0.
   */
  function GetFree(s: seq<Slot>, lastfree: int): (r: (int, int))
    requires 0 <= lastfree <= |s|
    ensures 0 <= r.0 <= lastfree
    ensures r.1 == NIL || (r.1 == r.0 < |s| && s[r.1].status == IsNone)
    decreases lastfree
  {
    if lastfree == 0 then (0, NIL)
    else if s[lastfree - 1].status == IsNone then (lastfree - 1, lastfree - 1)
    else GetFree(s, lastfree - 1)
  }

  /**
   * imap_set as written. None stands for the branch that rebuilds the
   * table (lines 141-144), which no run below reaches.
   */
  function Set(t: Table, key: int, value: int): (r: Option<Table>)
    requires WellFormed(t) && key >= 0
    ensures r.Some? ==> WellFormed(r.value) && |r.value.slots| == |t.slots|
  {
    var s := t.slots;
    var h := Hash(key, |s|);
    if s[h].status == IsExist then
      var found := Walk(s, h, key, |s|);
      if found != NIL then
        // line 134: the value goes to the main slot, not to the slot found
        Some(t.(slots := s[h := s[h].(value := value)]))
      else
        var (lastfree, np) := GetFree(s, t.lastfree);
        if np == NIL then None
        else
          var s1 := s[np := s[np].(next := s[h].next)];
          var s2 := s1[h := s1[h].(next := np)];
          if Hash(s[h].key, |s|) == h then
            Some(Table(s2[np := s2[np].(status := IsExist, key := key, value := value)], lastfree, t.count + 1))
          else
            // lines 153-154: key and value move to np, its status stays IS_NONE
            var s3 := s2[np := s2[np].(key := s[h].key, value := s[h].value)];
            Some(Table(s3[h := s3[h].(status := IsExist, key := key, value := value)], lastfree, t.count + 1))
    else
      // line 130: a tombstoned main slot is reused without looking down its chain
      Some(Table(s[h := s[h].(status := IsExist, key := key, value := value)], t.lastfree, t.count + 1))
  }

  /** imap_remove as written. */
  function Remove(t: Table, key: int): (r: (Table, Option<int>))
    requires WellFormed(t) && key >= 0
    ensures WellFormed(r.0) && r.1 == Query(t, key)
  {
    var p := Find(t, key);
    if p == NIL then (t, None)
    else (Table(t.slots[p := t.slots[p].(status := IsRemove)], t.lastfree, t.count - 1), Some(t.slots[p].value))
  }

  /* ---------------------------------------------------------------- */
  /* Three runs on a fresh table of eight slots                       */
  /* ---------------------------------------------------------------- */

  /**
   * Line 134. Keys 0 and 8 share main slot 0; 8 is chained into slot 7.
   * Setting 8 again finds it in slot 7 but writes the new value into
   * slot 0, so key 0 takes 8's value and 8 keeps its old one.
   */
  lemma OverwriteHitsMainSlot()
    ensures var t1 := Set(Create(), 0, 100);
            t1.Some? && var t2 := Set(t1.value, 8, 200);
            t2.Some? && var t3 := Set(t2.value, 8, 300);
            t3.Some? && Query(t3.value, 0) == Some(300) && Query(t3.value, 8) == Some(200)
  {
  }

  /** Keys 1 and 9 share main slot 1; 9 is chained into slot 7. */
  function OneNine(): (t: Table)
    ensures WellFormed(t)
  {
    Table([FreeSlot, Slot(1, 100, IsExist, 7), FreeSlot, FreeSlot, FreeSlot, FreeSlot, FreeSlot, Slot(9, 200, IsExist, NIL)], 7, 2)
  }

  /** set(1, 100) then set(9, 200) on a fresh table. */
  lemma SetOneNine()
    ensures var t1 := Set(Create(), 1, 100);
            t1.Some? && var t2 := Set(t1.value, 9, 200);
            t2.Some? && t2.value == OneNine()
    ensures Query(OneNine(), 1) == Some(100) && Query(OneNine(), 9) == Some(200)
  {
    var t2 := Set(Set(Create(), 1, 100).value, 9, 200).value;
    assert t2.slots == OneNine().slots;
  }

  /**
   * Lines 150-155. Key 7, whose main slot 7 holds 9 of main slot 1,
   * displaces 9 into slot 6, but slot 6 keeps the status IS_NONE, so 9 is
   * no longer found.
   */
  lemma DisplacedEntryLost()
    ensures var t := Set(OneNine(), 7, 300);
            t.Some? && Query(t.value, 7) == Some(300) && Query(t.value, 9) == None
  {
    var t := Set(OneNine(), 7, 300).value;
    assert t.slots[1] == Slot(1, 100, IsExist, 7);
    assert t.slots[7] == Slot(7, 300, IsExist, 6);
    assert t.slots[6] == Slot(9, 200, IsNone, NIL);
  }

  /**
   * Line 130. With key 1 removed from main slot 1, setting key 9 writes a
   * second live copy of 9 into slot 1; removing 9 then removes only that
   * copy, and the old value of 9 comes back.
   */
  lemma TombstoneDuplicatesKey()
    ensures var t3 := Remove(OneNine(), 1).0;
            var t4 := Set(t3, 9, 300);
            t4.Some? && var t5 := Remove(t4.value, 9);
            t5.1 == Some(300) && Query(t5.0, 9) == Some(200)
  {
    TombstoneReused();
    StaleCopyFound(Set(Remove(OneNine(), 1).0, 9, 300).value);
  }

  /** The tombstoned main slot 1 takes a second live copy of 9. */
  lemma TombstoneReused()
    ensures var t3 := Remove(OneNine(), 1).0;
            var t4 := Set(t3, 9, 300);
            && t4.Some? && |t4.value.slots| == 8 && WellFormed(t4.value)
            && t4.value.slots[1] == Slot(9, 300, IsExist, 7)
            && t4.value.slots[7] == Slot(9, 200, IsExist, NIL)
  {
    var t3 := Remove(OneNine(), 1).0;
    assert t3.slots[1] == Slot(1, 100, IsRemove, 7) && t3.slots[7] == Slot(9, 200, IsExist, NIL);
  }

  /** In any table where slots 1 and 7 both hold 9, removing 9 uncovers the copy in 7. */
  lemma StaleCopyFound(t: Table)
    requires WellFormed(t) && |t.slots| == 8
    requires t.slots[1] == Slot(9, 300, IsExist, 7) && t.slots[7] == Slot(9, 200, IsExist, NIL)
    ensures Remove(t, 9).1 == Some(300) && Query(Remove(t, 9).0, 9) == Some(200)
  {
    var t5 := Remove(t, 9).0;
    assert t5.slots[1] == Slot(9, 300, IsRemove, 7) && t5.slots[7] == t.slots[7];
  }
}
