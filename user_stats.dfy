/**
 * The user-statistics record kept by the bot and the two handlers that
 * update it: `/start` registers a user, and a change of the bot's own chat
 * membership (reported when a user blocks or unblocks it) moves the user
 * between the active and the blocked list. `/stats` reports the two counters
 * to the owner only.
 *
 * The record is first given as a value with one function per handler; the
 * class `StatsStore` then holds it as mutable fields and updates them in
 * place, statement by statement, as the handlers do, and its methods are
 * proved against those functions.
 */
module UserStats {

  type UserId = int

  /** The persisted record `{total_users, blocked_users, user_ids, blocked_user_ids}`. */
  datatype Record = Record(totalUsers: int, blockedUsers: int, userIds: seq<UserId>, blockedUserIds: seq<UserId>)

  /** The record used when no saved one can be read (a missing `blocked_user_ids` is the empty list). */
  const Empty := Record(0, 0, [], [])

  /** The default record is well formed and holds nobody. */
  lemma EmptyWellFormed()
    ensures WellFormed(Empty)
    ensures Empty.totalUsers == 0 && Empty.blockedUsers == 0
    ensures forall u :: u !in Empty.userIds && u !in Empty.blockedUserIds
  {
  }

  /** The chat-member statuses a membership update can report. */
  datatype MemberStatus = Creator | Administrator | Member | Restricted | Left | Kicked

  /** `kicked` and `left` mean the user has blocked the bot. */
  predicate IsBlockStatus(status: MemberStatus)
  {
    status == Kicked || status == Left
  }

  predicate NoDuplicates(s: seq<UserId>)
  {
    forall i, j :: 0 <= i < j < |s| ==> s[i] != s[j]
  }

  predicate Disjoint(a: seq<UserId>, b: seq<UserId>)
  {
    forall x :: x in a ==> x !in b
  }

  /** The invariant of the record: counters match the lists, lists are duplicate-free and disjoint. */
  predicate WellFormed(d: Record)
  {
    && d.totalUsers == |d.userIds|
    && d.blockedUsers == |d.blockedUserIds|
    && NoDuplicates(d.userIds)
    && NoDuplicates(d.blockedUserIds)
    && Disjoint(d.userIds, d.blockedUserIds)
  }

  /**
   * Python's `list.remove(x)`: drop the first occurrence. Python raises
   * `ValueError` when x is absent; every call in the handlers is guarded by a
   * membership test, so the total version here (absent: unchanged) never
   * differs from the source.
   */
  function RemoveFirst(s: seq<UserId>, x: UserId): (r: seq<UserId>)
    ensures |r| == if x in s then |s| - 1 else |s|
    ensures x !in s ==> r == s
  {
    if s == [] then []
    else if s[0] == x then s[1..]
    else
      assert x in s <==> x in s[1..] by { assert s == [s[0]] + s[1..]; }
      [s[0]] + RemoveFirst(s[1..], x)
  }

  /** The removal takes away exactly one occurrence of x, when there is one. */
  lemma {:induction false} RemoveFirstMultiset(s: seq<UserId>, x: UserId)
    ensures multiset(RemoveFirst(s, x)) == multiset(s) - multiset{x}
  {
    if s != [] {
      assert s == [s[0]] + s[1..];
      if s[0] != x {
        RemoveFirstMultiset(s[1..], x);
      }
    }
  }

  /** Anything left after a removal was there before. */
  lemma RemoveFirstSubset(s: seq<UserId>, x: UserId, y: UserId)
    requires y in RemoveFirst(s, x)
    ensures y in s
  {
    RemoveFirstMultiset(s, x);
    assert y in multiset(RemoveFirst(s, x));
  }

  /** From a duplicate-free list the removal takes every occurrence and keeps it duplicate-free. */
  lemma {:induction false} RemoveFirstNoDuplicates(s: seq<UserId>, x: UserId)
    requires NoDuplicates(s)
    ensures NoDuplicates(RemoveFirst(s, x)) && x !in RemoveFirst(s, x)
  {
    if s != [] {
      var t := s[1..];
      assert NoDuplicates(t);
      HeadNotInTail(s);
      if s[0] != x {
        RemoveFirstNoDuplicates(t, x);
        ConsFresh(s[0], RemoveFirst(t, x), t, x);
      }
    }
  }

  lemma ConsFresh(h: UserId, r: seq<UserId>, t: seq<UserId>, x: UserId)
    requires NoDuplicates(r) && h !in t && r == RemoveFirst(t, x)
    ensures NoDuplicates([h] + r)
  {
    var c := [h] + r;
    forall i, j | 0 <= i < j < |c| ensures c[i] != c[j] {
      if i == 0 {
        assert c[j] == r[j - 1];
        RemoveFirstSubset(t, x, r[j - 1]);
      } else {
        assert c[i] == r[i - 1] && c[j] == r[j - 1];
      }
    }
  }

  /** What `/start` does to the record for user u. */
  function AfterStart(d: Record, u: UserId): (r: Record)
    ensures u in r.userIds && r.totalUsers == |r.userIds|
    ensures forall x :: x in d.userIds ==> x in r.userIds
  {
    var ids := if u in d.userIds then d.userIds else d.userIds + [u];
    if u in d.blockedUserIds then
      Record(|ids|, if d.blockedUsers > 0 then d.blockedUsers - 1 else d.blockedUsers,
             ids, RemoveFirst(d.blockedUserIds, u))
    else
      Record(|ids|, d.blockedUsers, ids, d.blockedUserIds)
  }

  /** The `kicked`/`left` branch for an active user (before the total is recomputed). */
  function BlockUser(d: Record, u: UserId): (r: Record)
    ensures u in r.blockedUserIds && r.blockedUsers == d.blockedUsers + 1
    ensures u in d.userIds ==> |r.userIds| == |d.userIds| - 1
  {
    Record(d.totalUsers, d.blockedUsers + 1, RemoveFirst(d.userIds, u),
           if u in d.blockedUserIds then d.blockedUserIds else d.blockedUserIds + [u])
  }

  /** The `member` branch for a blocked user (before the total is recomputed). */
  function UnblockUser(d: Record, u: UserId): (r: Record)
    ensures u in r.userIds && |r.userIds| == |d.userIds| + 1
    ensures d.blockedUsers >= 0 ==> r.blockedUsers >= 0
    ensures u in d.blockedUserIds ==> |r.blockedUserIds| == |d.blockedUserIds| - 1
  {
    Record(d.totalUsers, if d.blockedUsers > 0 then d.blockedUsers - 1 else d.blockedUsers,
           d.userIds + [u], RemoveFirst(d.blockedUserIds, u))
  }

  /** What one run of the membership handler does to the record for user u. */
  function AfterMemberUpdate(d: Record, u: UserId, status: MemberStatus): (r: Record)
    ensures r.totalUsers == |r.userIds|
    ensures IsBlockStatus(status) && u in d.userIds ==> u in r.blockedUserIds
    ensures status == Member && u in d.blockedUserIds ==> u in r.userIds
  {
    var e :=
      if IsBlockStatus(status) then
        if u in d.userIds then BlockUser(d, u) else d
      else if status == Member then
        if u in d.blockedUserIds then UnblockUser(d, u) else d
      else d;
    e.(totalUsers := |e.userIds|)
  }

  lemma AppendFresh(s: seq<UserId>, u: UserId)
    requires NoDuplicates(s) && u !in s
    ensures NoDuplicates(s + [u])
  {
    var t := s + [u];
    forall i, j | 0 <= i < j < |t| ensures t[i] != t[j] {
      if j == |s| { assert t[i] == s[i]; }
    }
  }

  /** The head of a duplicate-free list does not recur in its tail. */
  lemma HeadNotInTail(s: seq<UserId>)
    requires NoDuplicates(s) && s != []
    ensures s[0] !in s[1..]
  {
    forall j | 0 <= j < |s| - 1 ensures s[1..][j] != s[0] {
      assert s[1..][j] == s[j + 1];
    }
  }

  /** A duplicate-free list holds each value at most once. */
  lemma {:induction false} CountAtMostOne(s: seq<UserId>, u: UserId)
    requires NoDuplicates(s)
    ensures multiset(s)[u] == if u in s then 1 else 0
  {
    if s != [] {
      assert s == [s[0]] + s[1..];
      assert NoDuplicates(s[1..]);
      CountAtMostOne(s[1..], u);
      HeadNotInTail(s);
    }
  }

  // ---------------------------------------------------------------------
  // /start
  // ---------------------------------------------------------------------

  /** `/start` keeps the record well formed. */
  lemma StartPreservesWellFormed(d: Record, u: UserId)
    requires WellFormed(d)
    ensures WellFormed(AfterStart(d, u))
  {
    var r := AfterStart(d, u);
    if u !in d.userIds { AppendFresh(d.userIds, u); }
    RemoveFirstNoDuplicates(d.blockedUserIds, u);
    RemoveFirstMultiset(d.blockedUserIds, u);
    forall x | x in r.userIds ensures x !in r.blockedUserIds {
      if x != u {
        assert x in d.userIds;
        assert x !in d.blockedUserIds;
        assert multiset(r.blockedUserIds)[x] <= multiset(d.blockedUserIds)[x];
      }
    }
  }

  /**
   * After `/start` the user is listed exactly once as active and not as
   * blocked; the blocked counter drops by one exactly when the user had been
   * blocked, never below zero; every other user keeps their place.
   */
  lemma StartRegistersUser(d: Record, u: UserId)
    requires WellFormed(d)
    ensures var r := AfterStart(d, u);
      && multiset(r.userIds)[u] == 1
      && u !in r.blockedUserIds
      && r.blockedUsers == (if u in d.blockedUserIds then d.blockedUsers - 1 else d.blockedUsers)
      && r.blockedUsers >= 0
      && r.totalUsers == |r.userIds|
      && (forall x :: x != u ==> (x in r.userIds <==> x in d.userIds))
      && (forall x :: x != u ==> (x in r.blockedUserIds <==> x in d.blockedUserIds))
  {
    var r := AfterStart(d, u);
    StartPreservesWellFormed(d, u);
    CountAtMostOne(r.userIds, u);
    RemoveFirstNoDuplicates(d.blockedUserIds, u);
    RemoveFirstMultiset(d.blockedUserIds, u);
    forall x | x != u ensures x in r.blockedUserIds <==> x in d.blockedUserIds {
      assert x in r.blockedUserIds <==> x in multiset(r.blockedUserIds);
      assert x in d.blockedUserIds <==> x in multiset(d.blockedUserIds);
    }
  }

  /**
   * Helper for `StatsStore.Start`: `StartPreservesWellFormed` and
   * `StartRegistersUser` joined into one implication the method can use
   * without a precondition.
   */
  lemma StartKeepsInvariant(d: Record, u: UserId)
    ensures WellFormed(d) ==>
      var r := AfterStart(d, u);
      WellFormed(r) && multiset(r.userIds)[u] == 1 && u !in r.blockedUserIds
  {
    if WellFormed(d) {
      StartPreservesWellFormed(d, u);
      StartRegistersUser(d, u);
    }
  }

  /** A second `/start` from the same user changes nothing. */
  lemma StartIdempotent(d: Record, u: UserId)
    requires WellFormed(d)
    ensures AfterStart(AfterStart(d, u), u) == AfterStart(d, u)
  {
    StartRegistersUser(d, u);
  }

  // ---------------------------------------------------------------------
  // membership updates
  // ---------------------------------------------------------------------

  /** Every membership update keeps the record well formed. */
  lemma MemberUpdatePreservesWellFormed(d: Record, u: UserId, status: MemberStatus)
    requires WellFormed(d)
    ensures WellFormed(AfterMemberUpdate(d, u, status))
  {
    var r := AfterMemberUpdate(d, u, status);
    if IsBlockStatus(status) && u in d.userIds {
      AppendFresh(d.blockedUserIds, u);
      RemoveFirstNoDuplicates(d.userIds, u);
      forall x | x in r.userIds ensures x !in r.blockedUserIds {
        RemoveFirstSubset(d.userIds, u, x);
      }
    } else if status == Member && u in d.blockedUserIds {
      AppendFresh(d.userIds, u);
      RemoveFirstNoDuplicates(d.blockedUserIds, u);
      RemoveFirstMultiset(d.blockedUserIds, u);
      forall x | x in r.userIds ensures x !in r.blockedUserIds {
        if x != u {
          assert x in d.userIds;
          assert multiset(r.blockedUserIds)[x] <= multiset(d.blockedUserIds)[x];
        }
      }
    }
  }

  /** Helper for `StatsStore.HandleBlock`: `MemberUpdatePreservesWellFormed` as an implication. */
  lemma MemberUpdateKeepsInvariant(d: Record, u: UserId, status: MemberStatus)
    ensures WellFormed(d) ==> WellFormed(AfterMemberUpdate(d, u, status))
  {
    if WellFormed(d) {
      MemberUpdatePreservesWellFormed(d, u, status);
    }
  }

  /**
   * A `kicked` or `left` update for an active user moves the user to the end
   * of the blocked list and raises the blocked counter by one.
   */
  lemma BlockMovesUser(d: Record, u: UserId, status: MemberStatus)
    requires WellFormed(d) && IsBlockStatus(status) && u in d.userIds
    ensures var r := AfterMemberUpdate(d, u, status);
      && u !in r.userIds
      && multiset(r.userIds) == multiset(d.userIds) - multiset{u}
      && r.blockedUserIds == d.blockedUserIds + [u]
      && r.blockedUsers == d.blockedUsers + 1
      && r.totalUsers == d.totalUsers - 1
  {
    RemoveFirstNoDuplicates(d.userIds, u);
    RemoveFirstMultiset(d.userIds, u);
  }

  /**
   * A `member` update for a blocked user moves the user back to the end of
   * the active list and lowers the blocked counter by one, never below zero.
   */
  lemma UnblockMovesUser(d: Record, u: UserId)
    requires WellFormed(d) && u in d.blockedUserIds
    ensures var r := AfterMemberUpdate(d, u, Member);
      && u !in r.blockedUserIds
      && multiset(r.blockedUserIds) == multiset(d.blockedUserIds) - multiset{u}
      && r.userIds == d.userIds + [u]
      && r.blockedUsers == d.blockedUsers - 1
      && r.blockedUsers >= 0
      && r.totalUsers == d.totalUsers + 1
  {
    RemoveFirstNoDuplicates(d.blockedUserIds, u);
    RemoveFirstMultiset(d.blockedUserIds, u);
  }

  /** In every other case only the total is recomputed from the active list. */
  lemma MemberUpdateOtherwiseUnchanged(d: Record, u: UserId, status: MemberStatus)
    requires !(IsBlockStatus(status) && u in d.userIds)
    requires !(status == Member && u in d.blockedUserIds)
    ensures AfterMemberUpdate(d, u, status) == d.(totalUsers := |d.userIds|)
  {
  }

  /**
   * The same update applied twice gives the record it gives once, which is
   * why running the handler once per registration does no harm.
   */
  lemma MemberUpdateIdempotent(d: Record, u: UserId, status: MemberStatus)
    requires WellFormed(d)
    ensures var once := AfterMemberUpdate(d, u, status);
            AfterMemberUpdate(once, u, status) == once
  {
    var once := AfterMemberUpdate(d, u, status);
    MemberUpdatePreservesWellFormed(d, u, status);
    if IsBlockStatus(status) && u in d.userIds {
      BlockMovesUser(d, u, status);
    } else if status == Member && u in d.blockedUserIds {
      UnblockMovesUser(d, u);
    }
  }

  /** Blocking twice raises the blocked counter by exactly one. */
  lemma DoubleBlockCountsOnce(d: Record, u: UserId, status: MemberStatus)
    requires WellFormed(d) && IsBlockStatus(status) && u in d.userIds
    ensures AfterMemberUpdate(AfterMemberUpdate(d, u, status), u, status).blockedUsers == d.blockedUsers + 1
  {
    BlockMovesUser(d, u, status);
    MemberUpdateIdempotent(d, u, status);
  }

  /**
   * Idempotence rests on the invariant: a record whose active list holds a
   * user twice counts a repeated block twice.
   */
  lemma DuplicateEntryDoubleCounts()
    ensures var d := Record(2, 0, [7, 7], []);
            AfterMemberUpdate(AfterMemberUpdate(d, 7, Kicked), 7, Kicked).blockedUsers == 2
  {
    var d := Record(2, 0, [7, 7], []);
    var once := AfterMemberUpdate(d, 7, Kicked);
    assert once.userIds == [7] && once.blockedUsers == 1 && once.blockedUserIds == [7];
  }

  // ---------------------------------------------------------------------
  // every record the handlers can produce
  // ---------------------------------------------------------------------

  /** An event that reaches the record. */
  datatype Event = StartCommand(user: UserId) | MembershipChange(user: UserId, status: MemberStatus)

  function Apply(d: Record, e: Event): Record
  {
    match e
    case StartCommand(u) => AfterStart(d, u)
    case MembershipChange(u, s) => AfterMemberUpdate(d, u, s)
  }

  /** The record after the given events, starting from the empty one. */
  function Replay(events: seq<Event>): Record
  {
    if events == [] then Empty
    else Apply(Replay(events[..|events| - 1]), events[|events| - 1])
  }

  /** Starting from the empty record, every sequence of events leaves it well formed. */
  lemma {:induction false} ReplayWellFormed(events: seq<Event>)
    ensures WellFormed(Replay(events))
  {
    if events != [] {
      var prefix := events[..|events| - 1];
      ReplayWellFormed(prefix);
      match events[|events| - 1]
      case StartCommand(u) => StartPreservesWellFormed(Replay(prefix), u);
      case MembershipChange(u, s) => MemberUpdatePreservesWellFormed(Replay(prefix), u, s);
    }
  }

  // ---------------------------------------------------------------------
  // /stats
  // ---------------------------------------------------------------------

  /** The one user allowed to see the statistics. */
  const OwnerId: UserId := 7574316340

  datatype StatsReply = NotAuthorized | Report(totalUsers: int, blockedUsers: int)

  /**
   * The reply to `/stats` from caller, given the stored record: only the
   * owner gets the counters, and then exactly the stored ones.
   */
  function StatsFor(caller: UserId, d: Record): (r: StatsReply)
    ensures r.Report? <==> caller == OwnerId
    ensures r.Report? ==> r == Report(d.totalUsers, d.blockedUsers)
  {
    if caller != OwnerId then NotAuthorized else Report(d.totalUsers, d.blockedUsers)
  }

  // ---------------------------------------------------------------------
  // the record as the handlers hold it: updated in place
  // ---------------------------------------------------------------------

  class StatsStore {
    var totalUsers: int
    var blockedUsers: int
    var userIds: seq<UserId>
    var blockedUserIds: seq<UserId>

    function Value(): Record
      reads this
    {
      Record(totalUsers, blockedUsers, userIds, blockedUserIds)
    }

    ghost predicate Valid()
      reads this
    {
      WellFormed(Value())
    }

    /** The record as loaded when no saved one exists. */
    constructor ()
      ensures Value() == Empty && Valid()
    {
      totalUsers, blockedUsers, userIds, blockedUserIds := 0, 0, [], [];
    }

    /** The `/start` handler's update of the record. */
    method Start(u: UserId)
      modifies this
      ensures Value() == AfterStart(old(Value()), u)
      ensures old(Valid()) ==> Valid() && multiset(userIds)[u] == 1 && u !in blockedUserIds
    {
      ghost var before := Value();
      if u !in userIds {
        userIds := userIds + [u];
      }
      totalUsers := |userIds|;
      if u in blockedUserIds {
        if blockedUsers > 0 {
          blockedUsers := blockedUsers - 1;
        }
        blockedUserIds := RemoveFirst(blockedUserIds, u);
      }
      assert userIds == AfterStart(before, u).userIds;
      assert Value() == AfterStart(before, u);
      StartKeepsInvariant(before, u);
    }

    /** One run of the membership handler. */
    method HandleBlock(u: UserId, status: MemberStatus)
      modifies this
      ensures Value() == AfterMemberUpdate(old(Value()), u, status)
      ensures old(Valid()) ==> Valid()
    {
      ghost var before := Value();
      if IsBlockStatus(status) {
        if u in userIds {
          userIds := RemoveFirst(userIds, u);
          blockedUsers := blockedUsers + 1;
          if u !in blockedUserIds {
            blockedUserIds := blockedUserIds + [u];
          }
          assert Value() == BlockUser(before, u);
        }
      } else if status == Member {
        if u in blockedUserIds {
          if blockedUsers > 0 {
            blockedUsers := blockedUsers - 1;
          }
          blockedUserIds := RemoveFirst(blockedUserIds, u);
          userIds := userIds + [u];
          assert Value() == UnblockUser(before, u);
        }
      }
      totalUsers := |userIds|;
      MemberUpdateKeepsInvariant(before, u, status);
    }

    /**
     * The handler is registered twice for the same update. Should both
     * registrations run, the second run changes nothing on a well-formed
     * record: the result is that of a single run.
     */
    method OnMembershipChange(u: UserId, status: MemberStatus)
      modifies this
      ensures Value() == AfterMemberUpdate(AfterMemberUpdate(old(Value()), u, status), u, status)
      ensures old(Valid()) ==> Valid() && Value() == AfterMemberUpdate(old(Value()), u, status)
    {
      ghost var before := Value();
      HandleBlock(u, status);
      HandleBlock(u, status);
      if WellFormed(before) {
        MemberUpdateIdempotent(before, u, status);
      }
    }

    /** The `/stats` reply from the current record. */
    function Stats(caller: UserId): (r: StatsReply)
      reads this
      ensures r.Report? <==> caller == OwnerId
      ensures r.Report? ==> r.totalUsers == totalUsers && r.blockedUsers == blockedUsers
    {
      StatsFor(caller, Value())
    }
  }
}
