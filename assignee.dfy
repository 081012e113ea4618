/** `update_assignee_cache_counts`, the `after_save` callback that refreshes
    the cached open-issue counts of the users an issuable was and is now
    assigned to. */
module AssigneeCache {
  import opened Wrappers
  import Records
  import Seqs

  type UserId = Records.UserId

  /** `is_being_reassigned?` (`assignee_id_changed?`): the assignee id being
      saved differs from the one loaded. */
  predicate IsBeingReassigned(was: Option<UserId>, now: Option<UserId>)
  {
    was != now
  }

  /** Whether saving moves `u` onto or off the issuable, which is what changes
      the number of issuables assigned to `u`. */
  predicate AssignmentChanges(u: UserId, was: Option<UserId>, now: Option<UserId>)
  {
    (was == Some(u)) != (now == Some(u))
  }

  /** The users whose counts the callback flushes, in order, given the ids of
      the existing `users`: nothing when the assignee did not change (the
      callback's `if:` guard); otherwise the previous assignee, looked up with
      `User.find` (an error when that user is gone), then the new assignee when
      the `assignee` association finds one. */
  function FlushTargets(users: set<UserId>, was: Option<UserId>, now: Option<UserId>): (r: Result<seq<UserId>, UserId>)
    ensures r.Err? <==> IsBeingReassigned(was, now) && was.Some? && was.value !in users
    ensures r.Err? ==> r.error == was.value
    ensures r.Ok? ==> forall u :: u in r.value <==> u in users && AssignmentChanges(u, was, now)
    ensures r.Ok? ==> Seqs.Distinct(r.value)
    ensures r.Ok? && |r.value| == 2 ==> was.Some? && now.Some? && r.value == [was.value, now.value]
  {
    if !IsBeingReassigned(was, now) then Ok([])
    else if was.Some? && was.value !in users then Err(was.value)
    else
      var previous := if was.Some? then [was.value] else [];
      var next := if now.Some? && now.value in users then [now.value] else [];
      Ok(previous + next)
  }

  /** Reassigning from user 1 to user 2 flushes both, old first; assigning
      user 2 to an unassigned issuable flushes user 2; unassigning user 2
      flushes user 2; saving without a change flushes nobody; and
      reassigning away from a deleted user 1 fails. */
  lemma FlushScenarios()
    ensures FlushTargets({1, 2}, Some(1), Some(2)) == Ok([1, 2])
    ensures FlushTargets({1, 2}, None, Some(2)) == Ok([2])
    ensures FlushTargets({1, 2}, Some(2), None) == Ok([2])
    ensures FlushTargets({1, 2}, Some(2), Some(2)) == Ok([])
    ensures FlushTargets({2}, Some(1), Some(2)) == Err(1)
  {
    assert [] + [2] == [2];
    assert [2] + [] == [2];
  }

  /** The users' cache of assigned counts, as the log of the flushes that
      `update_cache_counts` performs. */
  class UserCache {
    var flushed: seq<UserId>

    constructor ()
      ensures flushed == []
    {
      flushed := [];
    }

    /** The `after_save` callback: returns the id `User.find` failed on, if
        any, and otherwise flushes the targets in order. */
    method AfterSave(users: set<UserId>, was: Option<UserId>, now: Option<UserId>) returns (missing: Option<UserId>)
      modifies this
      ensures FlushTargets(users, was, now).Ok? ==>
                missing == None && flushed == old(flushed) + FlushTargets(users, was, now).value
      ensures FlushTargets(users, was, now).Err? ==>
                missing == Some(FlushTargets(users, was, now).error) && flushed == old(flushed)
    {
      missing := None;
      if was != now {
        if was.Some? {
          if was.value !in users {
            missing := Some(was.value);
            return;
          }
          flushed := flushed + [was.value];
        }
        if now.Some? && now.value in users {
          flushed := flushed + [now.value];
        }
      }
    }
  }
}
