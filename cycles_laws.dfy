/**
 * What `main` promises: how `-u` is resolved, that a later option replaces an
 * earlier one, that every option and command error comes before the counter is
 * opened, and the order of the child's actions after `fork`, which stops at the
 * first failed credential call.
 */
module CyclesLaws {
  import opened Wrappers
  import opened CType
  import opened GroupListParser
  import opened Privilege
  import opened Cycles

  // -u

  /** Every `uid_t` value can be asked for by its decimal numeral. */
  lemma NumericUser(n: nat, getpwnam: string -> Option<nat>)
    requires n < UidModulus && getpwnam(Render(n)) == None
    ensures ResolveUser(Render(n), getpwnam) == Success(n)
  {
    RenderRoundTrip(n);
  }

  /** A number that fits `unsigned long` but not `uid_t` wraps around. */
  lemma NumericUserWraps(n: nat, getpwnam: string -> Option<nat>)
    requires UidModulus <= n <= ULongMax && getpwnam(Render(n)) == None
    ensures ResolveUser(Render(n), getpwnam) == Success(n - UidModulus * (n / UidModulus))
  {
    RenderRoundTrip(n);
  }

  /** `-u 4294967296` asks for root, which keeps the caller's identity. */
  lemma WrapsToRoot(getpwnam: string -> Option<nat>)
    requires getpwnam(Render(UidModulus)) == None
    ensures ResolveUser(Render(UidModulus), getpwnam) == Success(0)
  {
    NumericUserWraps(UidModulus, getpwnam);
  }

  /** A number beyond `unsigned long` saturates, and then becomes the largest `uid_t`. */
  lemma NumericUserSaturates(n: nat, getpwnam: string -> Option<nat>)
    requires n > ULongMax && getpwnam(Render(n)) == None
    ensures ResolveUser(Render(n), getpwnam) == Success(UidModulus - 1)
  {
    RenderRoundTrip(n);
  }

  /**
   * `-u 4294967295`, or any numeral beyond `ULONG_MAX`, asks for `(uid_t)-1`: the
   * command then runs with the caller's user ids, as `setresuid(-1, -1, -1)` changes
   * nothing.
   */
  lemma UnchangedUserKeepsCaller(n: nat, command: seq<string>, sys: System, s0: CredState)
    requires (n == Unchanged || n > ULongMax) && sys.getpwnam(Render(n)) == None
    requires Expected([UserOpt(Render(n))], command, sys).outcome == Executed
    ensures Configure([UserOpt(Render(n))], sys) == Success(Settings(Unchanged, []))
    ensures ApplyAll(s0, Expected([UserOpt(Render(n))], command, sys).granted).uid == s0.uid
  {
    if n == Unchanged {
      NumericUser(n, sys.getpwnam);
    } else {
      NumericUserSaturates(n, sys.getpwnam);
    }
    var opt := UserOpt(Render(n));
    assert Step(Settings(0, []), opt, sys) == Success(Settings(Unchanged, []));
    assert [opt][1..] == [];
    assert ConfigureFrom(Settings(Unchanged, []), [], sys) == Success(Settings(Unchanged, []));
    assert ConfigureFrom(Settings(0, []), [opt], sys) == ConfigureFrom(Settings(Unchanged, []), [], sys);
    ExecutedAs([UserOpt(Render(n))], command, sys, s0);
  }

  // The option loop

  /** Options are read in order: the loop over `a + b` is the loop over `b` after the one over `a`. */
  lemma {:induction false} ConfigureAppend(acc: Settings, a: seq<Opt>, b: seq<Opt>, sys: System)
    ensures ConfigureFrom(acc, a + b, sys) ==
      match ConfigureFrom(acc, a, sys)
      case Failure(e) => Failure(e)
      case Success(mid) => ConfigureFrom(mid, b, sys)
    decreases |a|
  {
    if a != [] {
      assert (a + b)[0] == a[0] && (a + b)[1..] == a[1..] + b;
      match Step(acc, a[0], sys)
      case Failure(_) =>
      case Success(next) => ConfigureAppend(next, a[1..], b, sys);
    } else {
      assert a + b == b;
    }
  }

  /**
   * The options are accepted exactly when each one is valid on its own; otherwise the
   * error is that of the first invalid one.
   */
  lemma {:induction false} ConfigureMeaning(acc: Settings, opts: seq<Opt>, sys: System)
    ensures ConfigureFrom(acc, opts, sys).Success? <==> forall i :: 0 <= i < |opts| ==> OptError(opts[i], sys).None?
    ensures ConfigureFrom(acc, opts, sys).Failure? ==>
      exists i :: 0 <= i < |opts| && (forall j :: 0 <= j < i ==> OptError(opts[j], sys).None?) &&
        OptError(opts[i], sys) == Some(ConfigureFrom(acc, opts, sys).error)
    decreases |opts|
  {
    if opts != [] {
      match Step(acc, opts[0], sys)
      case Failure(e) =>
        assert OptError(opts[0], sys) == Some(e);
      case Success(next) =>
        ConfigureMeaning(next, opts[1..], sys);
        assert forall i :: 1 <= i < |opts| ==> opts[i] == opts[1..][i - 1];
        if ConfigureFrom(next, opts[1..], sys).Failure? {
          var i :| 0 <= i < |opts[1..]| && (forall j :: 0 <= j < i ==> OptError(opts[1..][j], sys).None?) &&
            OptError(opts[1..][i], sys) == Some(ConfigureFrom(next, opts[1..], sys).error);
          assert forall j :: 0 <= j < i + 1 ==> OptError(opts[j], sys).None?;
        }
    }
  }

  /** The uid the last `-u` asks for; root when there is none. */
  function LastUid(opts: seq<Opt>, sys: System): nat
  {
    if opts == [] then 0
    else
      match opts[|opts| - 1]
      case UserOpt(a) => (match ResolveUser(a, sys.getpwnam) case Success(u) => u case Failure(_) => 0)
      case _ => LastUid(opts[..|opts| - 1], sys)
  }

  /** The group ids the last `-g` lists; none when there is none. */
  function LastGroups(opts: seq<Opt>, sys: System): seq<nat>
  {
    if opts == [] then []
    else
      match opts[|opts| - 1]
      case GroupOpt(a) => (match GroupList(a, GidCapacity, sys.getgrnam) case Success(ids) => ids case Failure(_) => [])
      case _ => LastGroups(opts[..|opts| - 1], sys)
  }

  /** Last one wins: accepted options ask for the last `-u` and the last `-g`, each on its own. */
  lemma {:induction false} LastOneWins(opts: seq<Opt>, sys: System)
    requires Configure(opts, sys).Success?
    ensures Configure(opts, sys).value == Settings(LastUid(opts, sys), LastGroups(opts, sys))
    decreases |opts|
  {
    if opts != [] {
      var front, last := opts[..|opts| - 1], opts[|opts| - 1];
      assert opts == front + [last];
      ConfigureAppend(Settings(0, []), front, [last], sys);
      LastOneWins(front, sys);
    }
  }

  // The run of main

  /**
   * Every option error and the missing command are reported before the counter is
   * opened and before `fork`: nothing happens and no credential changes. Any other
   * run opens the counter first.
   */
  lemma FailuresComeFirst(opts: seq<Opt>, command: seq<string>, sys: System)
    ensures var b := Expected(opts, command, sys);
      && (Configure(opts, sys).Failure? ==> b == Behaviour([], Fatal(Configure(opts, sys).error), []))
      && (Configure(opts, sys).Success? && |command| == 0 ==> b == Behaviour([], Fatal(NoCommand), []))
      && (b.trace == [] <==> Configure(opts, sys).Failure? || |command| == 0)
      && (b.trace != [] ==> b.trace[0] == OpenCounter)
  {
  }

  /**
   * A child that executes the command has made every planned credential call, all
   * granted, and only then reset and enabled the counter.
   */
  lemma ChildOrder(opts: seq<Opt>, command: seq<string>, sys: System)
    requires Expected(opts, command, sys).outcome == Executed
    ensures Configure(opts, sys).Success? && |command| > 0
    ensures var settings := Configure(opts, sys).value;
      var plan := Plan(settings.uid, settings.groups, sys.getpwuid);
      && plan.Success?
      && (forall i :: 0 <= i < |plan.value| ==> sys.callOk(plan.value[i]))
      && Expected(opts, command, sys).granted == plan.value
      && Expected(opts, command, sys).trace ==
           [OpenCounter, Fork] + CredentialEvents(plan.value) + [ResetCounter, EnableCounter, Exec(command[0], command)]
  {
    var settings := Configure(opts, sys).value;
    var plan := Plan(settings.uid, settings.groups, sys.getpwuid);
    DropOutcome(CredState([], Same(0), Same(0)), settings.uid, settings.groups, sys.getpwuid, sys.callOk);
    FailClosed(plan.value, sys.callOk);
  }

  /**
   * Fail-closed: a credential call the kernel refuses is the last thing the child
   * does, and the run ends with that error; the counter is not reset or enabled and
   * the command is not executed.
   */
  lemma FailClosedRun(opts: seq<Opt>, command: seq<string>, sys: System)
    ensures var b := Expected(opts, command, sys);
      forall i :: 0 <= i < |b.trace| && b.trace[i].Credential? && !sys.callOk(b.trace[i].call) ==>
        i == |b.trace| - 1 && b.outcome == Fatal(DropFailed(Failed(b.trace[i].call)))
  {
    var b := Expected(opts, command, sys);
    if Configure(opts, sys).Success? && |command| > 0 && sys.counterOk && sys.forkOk {
      var settings := Configure(opts, sys).value;
      var plan := Plan(settings.uid, settings.groups, sys.getpwuid);
      var d := Execute(plan, sys.callOk);
      var tail := ForkedTrace(opts, command, sys);
      forall i | 0 <= i < |b.trace| && b.trace[i].Credential? && !sys.callOk(b.trace[i].call)
        ensures i == |b.trace| - 1 && b.outcome == Fatal(DropFailed(Failed(b.trace[i].call)))
      {
        CredentialAt(d.made, tail, i);
        RefusedIsLast(plan, sys.callOk, i - 2);
      }
    }
  }

  /** A refused call among those made is the last one made, and the drop fails with it. */
  lemma RefusedIsLast(plan: Result<seq<Call>, DropError>, ok: Call -> bool, i: nat)
    requires var d := Execute(plan, ok); i < |d.made| && !ok(d.made[i])
    ensures var d := Execute(plan, ok); i == |d.made| - 1 && d.result == Failure(Failed(d.made[i]))
  {
    var calls := plan.value;
    FailClosed(calls, ok);
  }

  /** After `setresuid` no credential call is made. */
  lemma UserIsLast(uid: nat, gids: seq<nat>, passwd: nat -> Option<nat>, ok: Call -> bool, i: nat)
    requires var d := Execute(Plan(uid, gids, passwd), ok); i < |d.made| && d.made[i].SetResUid?
    ensures i == |Execute(Plan(uid, gids, passwd), ok).made| - 1
  {
    var calls := Plan(uid, gids, passwd).value;
    PlanOrder(uid, gids, passwd);
    FailClosed(calls, ok);
  }

  /**
   * A forked child's trace: the counter, `fork`, the credential calls made, and then
   * events that are not credential calls, none at all after a failed drop.
   */
  lemma ForkedTrace(opts: seq<Opt>, command: seq<string>, sys: System) returns (tail: seq<Event>)
    requires Configure(opts, sys).Success? && |command| > 0 && sys.counterOk && sys.forkOk
    ensures var settings := Configure(opts, sys).value;
      var d := Execute(Plan(settings.uid, settings.groups, sys.getpwuid), sys.callOk);
      && Expected(opts, command, sys).trace == [OpenCounter, Fork] + CredentialEvents(d.made) + tail
      && (forall j :: 0 <= j < |tail| ==> !tail[j].Credential?)
      && (d.result.Failure? ==> tail == [] && Expected(opts, command, sys).outcome == Fatal(DropFailed(d.result.error)))
  {
    var settings := Configure(opts, sys).value;
    var d := Execute(Plan(settings.uid, settings.groups, sys.getpwuid), sys.callOk);
    if d.result.Failure? {
      tail := [];
      assert [OpenCounter, Fork] + CredentialEvents(d.made) + [] == [OpenCounter, Fork] + CredentialEvents(d.made);
    } else {
      tail := [ResetCounter, EnableCounter, Exec(command[0], command)];
    }
  }

  /** Where credential events stand in a forked child's trace. */
  lemma CredentialAt(made: seq<Call>, tail: seq<Event>, i: nat)
    requires forall j :: 0 <= j < |tail| ==> !tail[j].Credential?
    requires i < 2 + |made| + |tail|
    ensures var t := [OpenCounter, Fork] + CredentialEvents(made) + tail;
      && |t| == 2 + |made| + |tail|
      && (t[i].Credential? <==> 2 <= i < 2 + |made|)
      && (2 <= i < 2 + |made| ==> t[i] == Credential(made[i - 2]))
  {
    var t := [OpenCounter, Fork] + CredentialEvents(made) + tail;
    if i >= 2 + |made| {
      assert t[i] == tail[i - 2 - |made|];
    }
  }

  /** No credential call follows `setresuid`: the groups are settled before the user changes. */
  lemma GroupsBeforeUser(opts: seq<Opt>, command: seq<string>, sys: System)
    ensures var b := Expected(opts, command, sys);
      forall i, j :: 0 <= i < j < |b.trace| && b.trace[i].Credential? && b.trace[i].call.SetResUid? ==>
        !b.trace[j].Credential?
  {
    if Configure(opts, sys).Success? && |command| > 0 && sys.counterOk && sys.forkOk {
      var settings := Configure(opts, sys).value;
      var tail := ForkedTrace(opts, command, sys);
      SettledBeforeUser(settings.uid, settings.groups, sys.getpwuid, sys.callOk, tail);
    }
  }

  /** `GroupsBeforeUser` for a forked child's trace whose tail holds no credential call. */
  lemma SettledBeforeUser(uid: nat, gids: seq<nat>, passwd: nat -> Option<nat>, ok: Call -> bool, tail: seq<Event>)
    requires forall j :: 0 <= j < |tail| ==> !tail[j].Credential?
    ensures var t := [OpenCounter, Fork] + CredentialEvents(Execute(Plan(uid, gids, passwd), ok).made) + tail;
      forall i, j :: 0 <= i < j < |t| && t[i].Credential? && t[i].call.SetResUid? ==> !t[j].Credential?
  {
    var made := Execute(Plan(uid, gids, passwd), ok).made;
    var t := [OpenCounter, Fork] + CredentialEvents(made) + tail;
    forall i, j | 0 <= i < j < |t| && t[i].Credential? && t[i].call.SetResUid?
      ensures !t[j].Credential?
    {
      CredentialAt(made, tail, i);
      CredentialAt(made, tail, j);
      UserIsLast(uid, gids, passwd, ok, i - 2);
    }
  }

  /**
   * The command runs with the identity asked for: the user of `-u` unless that is
   * root, and the `-g` list, or else that user's primary group and no supplementary
   * groups. An id of `Unchanged` (`(uid_t)-1`) keeps the caller's.
   */
  lemma ExecutedAs(opts: seq<Opt>, command: seq<string>, sys: System, s0: CredState)
    requires Expected(opts, command, sys).outcome == Executed
    ensures var settings := Configure(opts, sys).value;
      var s := ApplyAll(s0, Expected(opts, command, sys).granted);
      && s.uid == (if settings.uid != 0 then SetIds(s0.uid, settings.uid) else s0.uid)
      && (|settings.groups| != 0 ==> s.groups == settings.groups && s.gid == SetIds(s0.gid, settings.groups[0]))
      && (|settings.groups| == 0 && settings.uid != 0 ==>
            sys.getpwuid(settings.uid).Some? && s.groups == [] &&
            s.gid == SetIds(s0.gid, sys.getpwuid(settings.uid).value))
      && (|settings.groups| == 0 && settings.uid == 0 ==> s == s0)
  {
    var settings := Configure(opts, sys).value;
    DropOutcome(s0, settings.uid, settings.groups, sys.getpwuid, sys.callOk);
  }
}
