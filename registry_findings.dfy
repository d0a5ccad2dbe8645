/**
 * Two steps of hive_actor.c as they are written, next to the corrected
 * steps the ActorRegistry module uses.
 *
 * The growth loop of hive_actor_create computes each actor's new slot with
 * `hande2hash`, whose mask still uses the OLD size (the size is doubled only
 * after the loop), so every actor stays at its old index; an actor whose
 * handle has the old-size bit set is then looked up one half-table away
 * from where it sits.
 *
 * _actor_new stores the callback, the name and a fresh mailbox but leaves
 * `handle`, `is_progress` and `is_release` as whatever the allocation held.
 */
module ActorRegistryAsWritten {
  import opened Common
  import opened ActorRegistry

  /** The doubled table as written: slot `j` of the old table is copied to slot `j`; the upper half stays empty. */
  function RegrownAsWritten(l: seq<Option<Actor>>): (r: seq<Option<Actor>>)
    ensures |r| == 2 * |l|
    ensures forall j :: 0 <= j < |l| ==> r[j] == l[j]
  {
    seq(2 * |l|, j requires 0 <= j < 2 * |l| => if j < |l| then l[j] else None)
  }

  /** After the as-written growth, a live actor whose handle maps to the upper half is no longer found. */
  lemma GrowAsWrittenLosesActor(l: seq<Option<Actor>>, h: u32)
    requires TableOk(l) && 2 * |l| < MAX_TABLE && Lookup(l, h).Some? && h % (2 * |l|) >= |l|
    ensures Lookup(RegrownAsWritten(l), h).None?
    ensures Lookup(Regrown(l), h) == Lookup(l, h)
  {
    var r := RegrownAsWritten(l);
    var j := h % (2 * |l|);
    assert r[j].None?;
    RegrownLookup(l);
  }

  /** The actor of `handle` with an empty mailbox and no marks. */
  function Idle(handle: u32): Actor
  {
    NewActor(None, handle, true)
  }

  /**
   * The table after four creates on a fresh registry: handles 1, 2, 3, 4
   * in slots 1, 2, 3, 0.  The fifth create finds it full and grows it; as
   * written, handle 4 is lost, while the corrected growth keeps it.
   */
  lemma FifthCreateLosesHandleFour()
    ensures var l := [Some(Idle(4)), Some(Idle(1)), Some(Idle(2)), Some(Idle(3))];
            && TableOk(l) && Full(l) && Lookup(l, 4) == Some(Idle(4))
            && Lookup(RegrownAsWritten(l), 4).None?
            && Lookup(Regrown(l), 4) == Some(Idle(4))
  {
    var l := [Some(Idle(4)), Some(Idle(1)), Some(Idle(2)), Some(Idle(3))];
    assert PowerOfTwo(2) && PowerOfTwo(4);
    assert TableOk(l);
    GrowAsWrittenLosesActor(l, 4);
  }

  /**
   * _actor_new as written: the fields it does not store keep the values of
   * `junk`, the memory the allocation returned.
   */
  function NewActorAsWritten(name: Option<string>, handle: u32, hasCb: bool, junk: Actor): (a: Actor)
    ensures a.name == name && a.hasCb == hasCb && a.mailbox == []
    ensures a.handle == junk.handle && a.inProgress == junk.inProgress && a.releasing == junk.releasing
  {
    Actor(junk.handle, name, hasCb, junk.inProgress, junk.releasing, [])
  }

  /**
   * Installed in the slot create chose for `handle`, an as-written actor
   * whose stale handle differs from `handle` cannot be found under the
   * handle create returns, so every send to it fails; the corrected actor
   * is found.
   */
  lemma UninitialisedHandleUnreachable(l: seq<Option<Actor>>, handle: u32, name: Option<string>,
                                        hasCb: bool, junk: Actor)
    requires TableOk(l) && l[handle % |l|].None? && junk.handle != handle
    ensures Lookup(l[handle % |l| := Some(NewActorAsWritten(name, handle, hasCb, junk))], handle).None?
    ensures Lookup(l[handle % |l| := Some(NewActor(name, handle, hasCb))], handle) ==
              Some(NewActor(name, handle, hasCb))
  {
  }

  /**
   * An as-written actor whose stale `is_progress` mark is set is never
   * queued by the HIVE_TCREATE send (the push sees the mark and returns), so
   * it holds a message but no ready-queue entry: the scheduling agreement
   * is broken and dispatch never reaches it.
   */
  lemma UninitialisedMarkNeverQueued(l: seq<Option<Actor>>, ready: seq<u32>, handle: u32,
                                      name: Option<string>, hasCb: bool, junk: Actor)
    requires TableOk(l) && ReadyOk(l, ready) && l[handle % |l|].None?
    requires junk.handle == handle && junk.inProgress
    ensures var t := l[handle % |l| := Some(Deliver(NewActorAsWritten(name, handle, hasCb, junk), CREATE_MSG))];
            && HasWork(t[handle % |l|].value)
            && !ReadyOk(t, ready)
  {
  }
}
