/**
 * `setuidgid`: the child's privilege drop before it runs the command. It makes an
 * ordered series of fallible credential calls and stops at the first one that
 * fails. The process credentials are a `Credentials` object; the kernel's verdict
 * on each call is an oracle, and `getpwuid` is an abstract lookup from a user id to
 * that user's primary group.
 */
module Privilege {
  import opened Wrappers

  /** A real, an effective and a saved id (`setresuid`/`setresgid` set all three). */
  datatype Ids = Ids(realId: nat, effectiveId: nat, savedId: nat)

  function Same(id: nat): Ids { Ids(id, id, id) }

  /** `(uid_t)-1` and `(gid_t)-1`: passed to `setresuid`/`setresgid`, it leaves that id as it is. */
  const Unchanged: nat := 0xFFFF_FFFF

  /** `setresuid(id, id, id)` or `setresgid(id, id, id)` applied to `ids`. */
  function SetIds(ids: Ids, id: nat): (r: Ids)
    ensures id != Unchanged ==> r == Same(id)
    ensures id == Unchanged ==> r == ids
  {
    if id == Unchanged then ids else Same(id)
  }

  datatype Call =
    | SetGroups(list: seq<nat>)  // setgroups(n, list)
    | SetResGid(gid: nat)        // setresgid(gid, gid, gid)
    | SetResUid(uid: nat)        // setresuid(uid, uid, uid)

  datatype DropError =
    | NoSuchUser(uid: nat)       // getpwuid found no such user
    | Failed(call: Call)         // the kernel refused this call

  /** The three credentials a call can change. */
  datatype CredState = CredState(groups: seq<nat>, gid: Ids, uid: Ids)

  /** What a call that succeeds does to the credentials. */
  function Effect(s: CredState, call: Call): (r: CredState)
    ensures !call.SetGroups? ==> r.groups == s.groups
    ensures !call.SetResGid? ==> r.gid == s.gid
    ensures !call.SetResUid? ==> r.uid == s.uid
  {
    match call
    case SetGroups(list) => s.(groups := list)
    case SetResGid(g) => s.(gid := SetIds(s.gid, g))
    case SetResUid(u) => s.(uid := SetIds(s.uid, u))
  }

  function ApplyAll(s: CredState, calls: seq<Call>): CredState
    decreases |calls|
  {
    if calls == [] then s else ApplyAll(Effect(s, calls[0]), calls[1..])
  }

  /**
   * The group calls of `setuidgid(uid, |gids|, gids)`: a supplied list, else
   * (for a user other than root) the user's primary group with no supplementary
   * groups, else none; or the failed `getpwuid` that comes before any call.
   */
  function GroupCalls(uid: nat, gids: seq<nat>, passwd: nat -> Option<nat>): (r: Result<seq<Call>, DropError>)
    ensures r.Failure? <==> |gids| == 0 && uid != 0 && passwd(uid).None?
    ensures r.Failure? ==> r.error == NoSuchUser(uid)
    ensures r.Success? ==> (r.value == [] <==> |gids| == 0 && uid == 0)
    ensures r.Success? && r.value != [] ==> |r.value| == 2 && r.value[0].SetGroups? && r.value[1].SetResGid?
  {
    if |gids| != 0 then Success([SetGroups(gids), SetResGid(gids[0])])
    else if uid == 0 then Success([])
    else
      match passwd(uid)
      case None => Failure(NoSuchUser(uid))
      case Some(pwgid) => Success([SetGroups([]), SetResGid(pwgid)])
  }

  /** The user call: none for root. */
  function UserCalls(uid: nat): (calls: seq<Call>)
    ensures uid == 0 <==> calls == []
    ensures forall i :: 0 <= i < |calls| ==> calls[i] == SetResUid(uid)
  {
    if uid != 0 then [SetResUid(uid)] else []
  }

  /** Every call `setuidgid` makes when all of them succeed, in order. */
  function Plan(uid: nat, gids: seq<nat>, passwd: nat -> Option<nat>): (r: Result<seq<Call>, DropError>)
    ensures r.Failure? <==> GroupCalls(uid, gids, passwd).Failure?
    ensures r.Failure? ==> r.error == NoSuchUser(uid)
    ensures r.Success? ==> |r.value| <= 3 && (r.value == [] <==> |gids| == 0 && uid == 0)
  {
    match GroupCalls(uid, gids, passwd)
    case Failure(e) => Failure(e)
    case Success(g) => Success(g + UserCalls(uid))
  }

  /** How many calls from the front succeed: the index of the first failing call, or all of them. */
  function Succeeding(calls: seq<Call>, ok: Call -> bool): (k: nat)
    ensures k <= |calls|
    ensures forall i :: 0 <= i < k ==> ok(calls[i])
    ensures k < |calls| ==> !ok(calls[k])
    decreases |calls|
  {
    if calls == [] || !ok(calls[0]) then 0
    else
      var k := 1 + Succeeding(calls[1..], ok);
      assert forall i :: 1 <= i < k ==> calls[i] == calls[1..][i - 1];
      k
  }

  /** The calls that are made: those that succeed and the first one that fails, and no more. */
  function Attempted(calls: seq<Call>, ok: Call -> bool): seq<Call>
  {
    var k := Succeeding(calls, ok);
    if k < |calls| then calls[..k + 1] else calls
  }

  class Credentials {
    var groups: seq<nat>
    var gid: Ids
    var uid: Ids
    /** Every credential call made on this process, in order. */
    var log: seq<Call>

    function State(): CredState
      reads this
    {
      CredState(groups, gid, uid)
    }

    /** Make one call; `ok` is the kernel's verdict. A refused call changes nothing. */
    method Perform(call: Call, ok: Call -> bool) returns (success: bool)
      modifies this
      ensures success == ok(call)
      ensures log == old(log) + [call]
      ensures State() == if success then Effect(old(State()), call) else old(State())
    {
      log := log + [call];
      success := ok(call);
      if success {
        match call {
          case SetGroups(list) => groups := list;
          case SetResGid(g) => gid := SetIds(gid, g);
          case SetResUid(u) => uid := SetIds(uid, u);
        }
      }
    }

    /**
     * `setuidgid(uid, gidcount, gids)`. A supplied list becomes the supplementary
     * groups and its first entry the group id; without one, a non-root user's primary
     * group from `passwd` is used and the supplementary groups are cleared; a
     * non-root `uid` is set last. The first failure ends the drop: the calls made are
     * those of the plan up to and including the one that failed.
     */
    method SetUidGid(uid: nat, gidcount: nat, gids: seq<nat>, passwd: nat -> Option<nat>, ok: Call -> bool)
      returns (r: Result<(), DropError>)
      requires gidcount <= |gids|
      modifies this
      ensures var d := Execute(Plan(uid, gids[..gidcount], passwd), ok);
        log == old(log) + d.made && State() == ApplyAll(old(State()), d.granted) && r == d.result
    {
      ghost var s0 := State();
      ghost var log0 := log;
      r := DropGroups(uid, gidcount, gids, passwd, ok);
      ghost var groupCalls := GroupCalls(uid, gids[..gidcount], passwd);
      if r.Failure? {
        GroupsFailed(uid, gids[..gidcount], passwd, ok);
        return;
      }
      ghost var done := groupCalls.value;
      AfterGroups(uid, gids[..gidcount], passwd, ok);
      if uid != 0 {
        var success := Perform(SetResUid(uid), ok);
        ApplyOneMore(s0, done, SetResUid(uid));
        if !success {
          return Failure(Failed(SetResUid(uid)));
        }
      }
    }

    /** The group half of `setuidgid`: the `if (gidcount != 0) ... else ...` part. */
    method DropGroups(uid: nat, gidcount: nat, gids: seq<nat>, passwd: nat -> Option<nat>, ok: Call -> bool)
      returns (r: Result<(), DropError>)
      requires gidcount <= |gids|
      modifies this
      ensures var d := Execute(GroupCalls(uid, gids[..gidcount], passwd), ok);
        log == old(log) + d.made && State() == ApplyAll(old(State()), d.granted) && r == d.result
    {
      ghost var s0 := State();
      var first, second;
      if gidcount != 0 {
        first, second := SetGroups(gids[..gidcount]), SetResGid(gids[0]);
      } else if uid != 0 {
        match passwd(uid) {
          case None =>
            return Failure(NoSuchUser(uid));
          case Some(pwgid) =>
            first, second := SetGroups([]), SetResGid(pwgid);
        }
      } else {
        assert gids[..gidcount] == [];
        return Success(());
      }
      ghost var calls := [first, second];
      var success := Perform(first, ok);
      if !success {
        FailsAt(s0, calls, [], ok);
        return Failure(Failed(first));
      }
      ghost var done := Made(s0, calls, [], ok);
      success := Perform(second, ok);
      if !success {
        FailsAt(s0, calls, done, ok);
        return Failure(Failed(second));
      }
      done := Made(s0, calls, done, ok);
      AllSucceed(calls, ok);
      return Success(());
    }
  }

  /**
   * What running a plan of fallible calls leaves behind: the calls made, the calls
   * that took effect, and the result.
   */
  datatype Drop = Drop(made: seq<Call>, granted: seq<Call>, result: Result<(), DropError>)

  /**
   * A failed lookup makes no call. Otherwise the calls made are those that succeed
   * from the front and then the first one that fails; only those that succeeded take
   * effect, and the result names the call that failed.
   */
  function Execute(plan: Result<seq<Call>, DropError>, ok: Call -> bool): (d: Drop)
    ensures plan.Failure? ==> d.made == [] && d.granted == [] && d.result == Failure(plan.error)
    ensures forall i :: 0 <= i < |d.granted| ==> ok(d.granted[i])
    ensures plan.Success? && d.result.Success? ==> d.made == d.granted == plan.value
    ensures plan.Success? && d.result.Failure? ==>
      d.result.error.Failed? && !ok(d.result.error.call) &&
      d.made == d.granted + [d.result.error.call] && |d.made| <= |plan.value| && d.made == plan.value[..|d.made|]
  {
    match plan
    case Failure(e) => Drop([], [], Failure(e))
    case Success(calls) =>
      var k := Succeeding(calls, ok);
      if k < |calls| then
        PrefixOneMore(calls, k);
        Drop(calls[..k + 1], calls[..k], Failure(Failed(calls[k])))
      else
        assert calls[..k] == calls;
        Drop(calls, calls, Success(()))
  }

  lemma PrefixOneMore<T>(s: seq<T>, k: nat)
    requires k < |s|
    ensures s[..k + 1] == s[..k] + [s[k]]
  {
  }

  /** A drop whose group half fails ends there: the user call is never made. */
  lemma GroupsFailed(uid: nat, gids: seq<nat>, passwd: nat -> Option<nat>, ok: Call -> bool)
    requires Execute(GroupCalls(uid, gids, passwd), ok).result.Failure?
    ensures Execute(Plan(uid, gids, passwd), ok) == Execute(GroupCalls(uid, gids, passwd), ok)
  {
    if GroupCalls(uid, gids, passwd).Success? {
      FailureCarriesOver(GroupCalls(uid, gids, passwd).value, UserCalls(uid), ok);
    }
  }

  /** Once every group call succeeded, the user call decides how the drop ends. */
  lemma AfterGroups(uid: nat, gids: seq<nat>, passwd: nat -> Option<nat>, ok: Call -> bool)
    requires GroupCalls(uid, gids, passwd).Success?
    requires var g := GroupCalls(uid, gids, passwd).value; Succeeding(g, ok) == |g|
    ensures var g := GroupCalls(uid, gids, passwd).value;
      && Execute(GroupCalls(uid, gids, passwd), ok) == Drop(g, g, Success(()))
      && (uid == 0 ==> Execute(Plan(uid, gids, passwd), ok) == Drop(g, g, Success(())))
      && (uid != 0 && ok(SetResUid(uid)) ==>
            Execute(Plan(uid, gids, passwd), ok) == Drop(g + [SetResUid(uid)], g + [SetResUid(uid)], Success(())))
      && (uid != 0 && !ok(SetResUid(uid)) ==>
            Execute(Plan(uid, gids, passwd), ok) == Drop(g + [SetResUid(uid)], g, Failure(Failed(SetResUid(uid)))))
  {
    var g := GroupCalls(uid, gids, passwd).value;
    assert g[..|g|] == g;
    if uid == 0 {
      assert g + [] == g;
    } else {
      LastCall(g, SetResUid(uid), ok);
    }
  }

  /** A failure among the group calls stops the drop before the user call. */
  lemma FailureCarriesOver(g: seq<Call>, tail: seq<Call>, ok: Call -> bool)
    requires Succeeding(g, ok) < |g|
    ensures Succeeding(g + tail, ok) == Succeeding(g, ok)
    ensures Attempted(g + tail, ok) == Attempted(g, ok)
    ensures (g + tail)[..Succeeding(g, ok)] == g[..Succeeding(g, ok)]
  {
    var k := Succeeding(g, ok);
    assert forall i :: 0 <= i <= k ==> (g + tail)[i] == g[i];
    SucceedingIs(g + tail, k, ok);
    assert (g + tail)[..k + 1] == g[..k + 1];
  }

  /** After group calls that all succeeded, one last call. */
  lemma LastCall(g: seq<Call>, last: Call, ok: Call -> bool)
    requires Succeeding(g, ok) == |g|
    ensures Succeeding(g + [last], ok) == if ok(last) then |g| + 1 else |g|
    ensures Attempted(g + [last], ok) == g + [last]
    ensures (g + [last])[..|g|] == g && (g + [last])[..|g| + 1] == g + [last]
  {
    AppendOne(g, last);
    SucceedingIs(g + [last], if ok(last) then |g| + 1 else |g|, ok);
  }

  lemma AppendOne<T>(g: seq<T>, last: T)
    ensures forall i :: 0 <= i < |g| ==> (g + [last])[i] == g[i]
    ensures (g + [last])[|g|] == last
    ensures (g + [last])[..|g|] == g && (g + [last])[..|g| + 1] == g + [last]
  {
  }

  /**
   * The next call of the plan succeeded: it joins the calls made, and its effect
   * joins the credentials.
   */
  lemma Made(s0: CredState, calls: seq<Call>, done: seq<Call>, ok: Call -> bool) returns (done': seq<Call>)
    requires |done| < |calls| && done == calls[..|done|] && ok(calls[|done|])
    requires forall i :: 0 <= i < |done| ==> ok(done[i])
    ensures done' == done + [calls[|done|]] && done' == calls[..|done'|]
    ensures forall i :: 0 <= i < |done'| ==> ok(done'[i])
    ensures ApplyAll(s0, done') == Effect(ApplyAll(s0, done), calls[|done|])
  {
    done' := done + [calls[|done|]];
    assert calls[..|done'|] == calls[..|done|] + [calls[|done|]];
    ApplyOneMore(s0, done, calls[|done|]);
  }

  /** The next call of the plan failed after all before it succeeded: nothing else is made. */
  lemma FailsAt(s0: CredState, calls: seq<Call>, done: seq<Call>, ok: Call -> bool)
    requires |done| < |calls| && done == calls[..|done|] && !ok(calls[|done|])
    requires forall i :: 0 <= i < |done| ==> ok(done[i])
    ensures Succeeding(calls, ok) == |done|
    ensures Attempted(calls, ok) == done + [calls[|done|]]
  {
    assert forall i :: 0 <= i < |done| ==> calls[i] == done[i];
    SucceedingIs(calls, |done|, ok);
    assert calls[..|done| + 1] == calls[..|done|] + [calls[|done|]];
  }

  /** A plan whose every call succeeds is made in full and applied in full. */
  lemma AllSucceed(calls: seq<Call>, ok: Call -> bool)
    requires forall i :: 0 <= i < |calls| ==> ok(calls[i])
    ensures Succeeding(calls, ok) == |calls| && Attempted(calls, ok) == calls
  {
  }

  /** `Succeeding` is the only count with its two defining facts. */
  lemma {:induction false} SucceedingIs(calls: seq<Call>, k: nat, ok: Call -> bool)
    requires k <= |calls| && (forall i :: 0 <= i < k ==> ok(calls[i]))
    requires k < |calls| ==> !ok(calls[k])
    ensures Succeeding(calls, ok) == k
    decreases k
  {
    if k > 0 {
      assert forall i :: 0 <= i < k - 1 ==> calls[1..][i] == calls[i + 1];
      SucceedingIs(calls[1..], k - 1, ok);
    }
  }

  lemma {:induction false} ApplyOneMore(s: CredState, calls: seq<Call>, last: Call)
    ensures ApplyAll(s, calls + [last]) == Effect(ApplyAll(s, calls), last)
    decreases |calls|
  {
    if calls == [] {
      assert [] + [last] == [last];
    } else {
      assert (calls + [last])[1..] == calls[1..] + [last];
      ApplyOneMore(Effect(s, calls[0]), calls[1..], last);
    }
  }

  // Properties of the drop

  /** The only way the drop fails before any call: no list and an unknown non-root user. */
  lemma PlanFailsIff(uid: nat, gids: seq<nat>, passwd: nat -> Option<nat>)
    ensures Plan(uid, gids, passwd).Failure? <==> |gids| == 0 && uid != 0 && passwd(uid).None?
    ensures Plan(uid, gids, passwd).Failure? ==> Plan(uid, gids, passwd).error == NoSuchUser(uid)
  {
  }

  /** Root without a group list keeps its credentials: no call at all, and only then. */
  lemma PlanNothingIff(uid: nat, gids: seq<nat>, passwd: nat -> Option<nat>)
    ensures Plan(uid, gids, passwd) == Success([]) <==> uid == 0 && |gids| == 0
  {
    match GroupCalls(uid, gids, passwd)
    case Failure(_) =>
    case Success(g) =>
      assert |g + UserCalls(uid)| == |g| + |UserCalls(uid)|;
  }

  /**
   * Group calls come before the user call: `setresuid` is made only for a non-root
   * user, exactly once, with that user's id and as the last call.
   */
  lemma PlanOrder(uid: nat, gids: seq<nat>, passwd: nat -> Option<nat>)
    requires Plan(uid, gids, passwd).Success?
    ensures var calls := Plan(uid, gids, passwd).value;
      && (forall i :: 0 <= i < |calls| - 1 ==> !calls[i].SetResUid?)
      && (uid != 0 ==> |calls| > 0 && calls[|calls| - 1] == SetResUid(uid))
      && (uid == 0 ==> forall i :: 0 <= i < |calls| ==> !calls[i].SetResUid?)
  {
  }

  /**
   * A supplied list goes to `setgroups` exactly as given, followed by its first entry
   * as the group id, also when `uid` is root.
   */
  lemma PlanGroupList(uid: nat, gids: seq<nat>, passwd: nat -> Option<nat>)
    requires |gids| != 0
    ensures Plan(uid, gids, passwd).Success?
    ensures var calls := Plan(uid, gids, passwd).value;
      && |calls| >= 2 && calls[0] == SetGroups(gids) && calls[1] == SetResGid(gids[0])
      && (forall i :: 0 <= i < |calls| && calls[i].SetGroups? ==> i == 0)
      && (uid == 0 ==> |calls| == 2)
  {
  }

  /**
   * Fail-closed: the calls `Execute` makes are a prefix of the plan, every one but the last
   * succeeded, and when the plan is cut short the last one made is the one that failed.
   */
  lemma FailClosed(calls: seq<Call>, ok: Call -> bool)
    ensures var made := Attempted(calls, ok);
      && made == Execute(Success(calls), ok).made
      && made == calls[..|made|]
      && (forall i :: 0 <= i < |made| - 1 ==> ok(made[i]))
      && (|made| < |calls| ==> |made| > 0 && !ok(made[|made| - 1]))
      && (|made| == |calls| ==> made == calls)
  {
  }

  /** Credential calls other than `setresuid` leave the user ids alone. */
  lemma {:induction false} GroupCallsKeepUid(s: CredState, calls: seq<Call>)
    requires forall i :: 0 <= i < |calls| ==> !calls[i].SetResUid?
    ensures ApplyAll(s, calls).uid == s.uid
    decreases |calls|
  {
    if calls != [] {
      GroupCallsKeepUid(Effect(s, calls[0]), calls[1..]);
    }
  }

  /**
   * What a finished drop leaves: a failed drop never takes on the new user id, and a
   * failed lookup changes nothing; a successful one has made every planned call and
   * holds exactly the requested credentials, except that an id of `Unchanged` leaves
   * the old one in place.
   */
  lemma DropOutcome(s0: CredState, uid: nat, gids: seq<nat>, passwd: nat -> Option<nat>, ok: Call -> bool)
    ensures var d := Execute(Plan(uid, gids, passwd), ok); var s := ApplyAll(s0, d.granted);
      && (d.result.Failure? ==> s.uid == s0.uid)
      && (d.result == Failure(NoSuchUser(uid)) ==> d.made == [] && s == s0)
      && (d.result.Success? ==> d.made == d.granted == Plan(uid, gids, passwd).value)
      && (d.result.Success? ==> s.uid == (if uid != 0 then SetIds(s0.uid, uid) else s0.uid))
      && (d.result.Success? && |gids| != 0 ==> s.groups == gids && s.gid == SetIds(s0.gid, gids[0]))
      && (d.result.Success? && |gids| == 0 && uid != 0 ==>
            passwd(uid).Some? && s.groups == [] && s.gid == SetIds(s0.gid, passwd(uid).value))
      && (d.result.Success? && |gids| == 0 && uid == 0 ==> s == s0)
  {
    match Plan(uid, gids, passwd)
    case Failure(e) =>
    case Success(calls) =>
      var k := Succeeding(calls, ok);
      if k < |calls| {
        PlanOrder(uid, gids, passwd);
        GroupCallsKeepUid(s0, calls[..k]);
      } else {
        assert calls[..k] == calls;
        if |calls| != 0 {
          ApplyPlan(s0, calls[0], calls[1], uid);
        }
      }
  }

  /** The credentials after two group calls and then the user call, when all succeed. */
  lemma ApplyPlan(s0: CredState, first: Call, second: Call, uid: nat)
    ensures ApplyAll(s0, [first, second] + UserCalls(uid)) ==
      var s2 := Effect(Effect(s0, first), second);
      if uid != 0 then Effect(s2, SetResUid(uid)) else s2
  {
    var calls := [first, second] + UserCalls(uid);
    var s2 := Effect(Effect(s0, first), second);
    assert calls[1..] == [second] + UserCalls(uid);
    assert calls[1..][1..] == UserCalls(uid);
    assert ApplyAll(s0, calls) == ApplyAll(s2, UserCalls(uid));
    if uid != 0 {
      assert UserCalls(uid)[1..] == [];
      assert ApplyAll(s2, UserCalls(uid)) == ApplyAll(Effect(s2, SetResUid(uid)), []);
    }
  }
}
