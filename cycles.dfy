/**
 * `main` of cycles: read the `-u` and `-g` options, refuse to go on without a
 * command, open the instruction counter, fork, and in the child drop privileges,
 * reset and enable the counter and execute the command. The account and group
 * databases, the counter, `fork`, the kernel's verdict on each credential call and
 * `execve` are oracles in a `System`. The model follows the child after `fork`; what
 * the parent does (wait, read the counter, print, exit) is not modelled.
 */
module Cycles {
  import opened Wrappers
  import opened CType
  import opened GroupListParser
  import opened Privilege

  /** `uid_t` is 32 bits wide; `unsigned long` is 64 bits wide. */
  const UidModulus: nat := 0x1_0000_0000
  const ULongMax: nat := 0xFFFF_FFFF_FFFF_FFFF

  /** `elemof(gids)`: the room for supplied group ids. */
  const GidCapacity: nat := 10

  /** One option as `getopt(argc, argv, "u:g:")` returns it. */
  datatype Opt =
    | UserOpt(arg: string)     // -u user
    | GroupOpt(arg: string)    // -g list
    | OtherOpt(letter: char)   // any other letter, or an option missing its argument

  datatype Error =
    | UnknownOption(letter: char)
    | NotNumeric(arg: string)    // -u: neither an account name nor a number
    | BadGroups(cause: ParseError)
    | NoCommand
    | CounterUnavailable         // perf_event_open failed
    | ForkFailed
    | DropFailed(reason: DropError)
    | ExecFailed(path: string)

  /** The actions of the program, in the order they are attempted. */
  datatype Event =
    | OpenCounter                // cycles_count_start
    | Fork
    | Credential(call: Call)     // a call made by setuidgid in the child
    | ResetCounter               // ioctl PERF_EVENT_IOC_RESET
    | EnableCounter              // ioctl PERF_EVENT_IOC_ENABLE
    | Exec(path: string, argv: seq<string>)

  /** Either a fatal error, or the child became the command. */
  datatype Outcome = Fatal(error: Error) | Executed

  /** The world the program runs in. */
  datatype System = System(
    getpwnam: string -> Option<nat>,  // the uid of an account name
    getgrnam: string -> Option<nat>,  // the gid of a group name
    getpwuid: nat -> Option<nat>,     // the primary gid of a uid
    callOk: Call -> bool,             // whether the kernel grants a credential call
    counterOk: bool,                  // whether perf_event_open succeeds
    forkOk: bool,
    execOk: string -> bool)           // whether execve of this path succeeds

  /** The identity the options ask for: a uid and the supplied group ids. */
  datatype Settings = Settings(uid: nat, groups: seq<nat>)

  /** What one run does: the events, how it ends, and the credential calls that took effect. */
  datatype Behaviour = Behaviour(trace: seq<Event>, outcome: Outcome, granted: seq<Call>)

  /** `strtoul(s, &end, 10)` on a digit string: saturates at `ULONG_MAX`. */
  function StrToULong(s: string): (x: nat)
    requires AllDigits(s)
    ensures x <= ULongMax
    ensures Value(s) <= ULongMax ==> x == Value(s)
    ensures Value(s) > ULongMax ==> x == ULongMax
  {
    if Value(s) <= ULongMax then Value(s) else ULongMax
  }

  /**
   * `-u arg`: an account name wins; otherwise `arg` must be all digits, and the
   * number, saturated to `unsigned long`, is cast to `uid_t`.
   */
  function ResolveUser(arg: string, getpwnam: string -> Option<nat>): (r: Result<nat, Error>)
    ensures getpwnam(arg).Some? ==> r == Success(getpwnam(arg).value)
    ensures getpwnam(arg).None? ==> (r.Failure? <==> !AllDigits(arg))
    ensures r.Failure? ==> r.error == NotNumeric(arg)
    ensures getpwnam(arg).None? && r.Success? ==> r.value < UidModulus
  {
    match getpwnam(arg)
    case Some(uid) => Success(uid)
    case None =>
      if AllDigits(arg) then Success(StrToULong(arg) % UidModulus) else Failure(NotNumeric(arg))
  }

  /** The error one option causes, if any; which one it is does not depend on earlier options. */
  function OptError(opt: Opt, sys: System): Option<Error>
  {
    match opt
    case UserOpt(a) => if ResolveUser(a, sys.getpwnam).Failure? then Some(ResolveUser(a, sys.getpwnam).error) else None
    case GroupOpt(a) =>
      if GroupList(a, GidCapacity, sys.getgrnam).Failure? then Some(BadGroups(GroupList(a, GidCapacity, sys.getgrnam).error)) else None
    case OtherOpt(c) => Some(UnknownOption(c))
  }

  /** One turn of the option loop: `-u` replaces the uid, `-g` replaces the group list. */
  function Step(acc: Settings, opt: Opt, sys: System): (r: Result<Settings, Error>)
    ensures r.Failure? <==> OptError(opt, sys).Some?
    ensures r.Failure? ==> r.error == OptError(opt, sys).value
  {
    match opt
    case UserOpt(a) =>
      (match ResolveUser(a, sys.getpwnam)
       case Failure(e) => Failure(e)
       case Success(u) => Success(acc.(uid := u)))
    case GroupOpt(a) =>
      (match GroupList(a, GidCapacity, sys.getgrnam)
       case Failure(e) => Failure(BadGroups(e))
       case Success(ids) => Success(acc.(groups := ids)))
    case OtherOpt(c) => Failure(UnknownOption(c))
  }

  function ConfigureFrom(acc: Settings, opts: seq<Opt>, sys: System): (r: Result<Settings, Error>)
    ensures r.Success? ==> r.value.groups == acc.groups || |r.value.groups| <= GidCapacity
    decreases |opts|
  {
    if opts == [] then Success(acc)
    else
      match Step(acc, opts[0], sys)
      case Failure(e) => Failure(e)
      case Success(next) => ConfigureFrom(next, opts[1..], sys)
  }

  /** The option loop, starting from `uid = 0` and no group list. */
  function Configure(opts: seq<Opt>, sys: System): (r: Result<Settings, Error>)
    ensures r.Success? ==> |r.value.groups| <= GidCapacity
  {
    ConfigureFrom(Settings(0, []), opts, sys)
  }

  function CredentialEvents(calls: seq<Call>): (events: seq<Event>)
    ensures |events| == |calls|
    ensures forall i :: 0 <= i < |calls| ==> events[i] == Credential(calls[i])
  {
    seq(|calls|, i requires 0 <= i < |calls| => Credential(calls[i]))
  }

  /** Every `-u`/`-g` argument is a C string. */
  predicate ArgIsCString(opt: Opt)
  {
    match opt
    case UserOpt(a) => CString(a)
    case GroupOpt(a) => CString(a)
    case OtherOpt(_) => true
  }

  /**
   * The behaviour of `main` with options `opts` and the command `command` (the
   * arguments left after the options).
   */
  function Expected(opts: seq<Opt>, command: seq<string>, sys: System): (b: Behaviour)
    ensures Configure(opts, sys).Failure? ==> b.trace == [] && b.outcome == Fatal(Configure(opts, sys).error)
    ensures b.outcome == Executed ==>
      Configure(opts, sys).Success? && |command| > 0 && |b.trace| >= 5 &&
      b.trace[..2] == [OpenCounter, Fork] && b.trace[|b.trace| - 1] == Exec(command[0], command)
  {
    match Configure(opts, sys)
    case Failure(e) => Behaviour([], Fatal(e), [])
    case Success(settings) => Launch(settings, command, sys)
  }

  /**
   * What follows the options: the command check, the counter, `fork`, and in the
   * child the privilege drop, the counter reset and enable, and `execve`.
   */
  function Launch(settings: Settings, command: seq<string>, sys: System): (b: Behaviour)
    ensures |command| == 0 ==> b.trace == [] && b.outcome == Fatal(NoCommand)
    ensures b.outcome == Executed ==>
      |command| > 0 && |b.trace| >= 5 && b.trace[..2] == [OpenCounter, Fork] && b.trace[|b.trace| - 1] == Exec(command[0], command)
  {
    if |command| == 0 then Behaviour([], Fatal(NoCommand), [])
    else if !sys.counterOk then Behaviour([OpenCounter], Fatal(CounterUnavailable), [])
    else if !sys.forkOk then Behaviour([OpenCounter, Fork], Fatal(ForkFailed), [])
    else Forked(settings, command, sys)
  }

  /** The forked child: the privilege drop, the counter reset and enable, and `execve`. */
  function Forked(settings: Settings, command: seq<string>, sys: System): (b: Behaviour)
    requires |command| > 0
    ensures |b.trace| >= 2 && b.trace[..2] == [OpenCounter, Fork]
    ensures b.outcome == Executed ==> |b.trace| >= 5 && b.trace[|b.trace| - 1] == Exec(command[0], command)
    ensures b.outcome.Fatal? ==> b.outcome.error.DropFailed? || b.outcome.error == ExecFailed(command[0])
  {
    var d := Execute(Plan(settings.uid, settings.groups, sys.getpwuid), sys.callOk);
    var child := [OpenCounter, Fork] + CredentialEvents(d.made);
    match d.result
    case Failure(e) => Behaviour(child, Fatal(DropFailed(e)), d.granted)
    case Success(_) =>
      var trace := child + [ResetCounter, EnableCounter, Exec(command[0], command)];
      Behaviour(trace, if sys.execOk(command[0]) then Executed else Fatal(ExecFailed(command[0])), d.granted)
  }

  /**
   * `main`. The `-g` list is parsed into a fixed array of `GidCapacity` ids that
   * later `-g` options overwrite; `creds` are the credentials of the child.
   */
  method Run(opts: seq<Opt>, command: seq<string>, sys: System, creds: Credentials)
    returns (trace: seq<Event>, outcome: Outcome)
    requires forall i :: 0 <= i < |opts| ==> ArgIsCString(opts[i])
    modifies creds
    ensures var b := Expected(opts, command, sys);
      trace == b.trace && outcome == b.outcome && creds.State() == ApplyAll(old(creds.State()), b.granted)
  {
    var uid: nat := 0;
    var gidcount: nat := 0;
    var gids := new nat[GidCapacity];
    var i := 0;
    while i < |opts|
      invariant i <= |opts| && gidcount <= gids.Length == GidCapacity
      invariant Configure(opts, sys) == ConfigureFrom(Settings(uid, gids[..gidcount]), opts[i..], sys)
      invariant creds.State() == old(creds.State())
    {
      assert opts[i..][1..] == opts[i + 1..];
      var stop;
      stop, uid, gidcount := ReadOption(opts[i], sys, uid, gidcount, gids);
      if stop.Some? {
        return [], Fatal(stop.value);
      }
      i := i + 1;
    }
    assert Configure(opts, sys) == Success(Settings(uid, gids[..gidcount]));
    trace, outcome := Start(uid, gidcount, gids[..], command, sys, creds);
  }

  /** The rest of `main` once the options are read: `Launch` for the settings `uid` and `gids[..gidcount]`. */
  method Start(uid: nat, gidcount: nat, gids: seq<nat>, command: seq<string>, sys: System, creds: Credentials)
    returns (trace: seq<Event>, outcome: Outcome)
    requires gidcount <= |gids|
    modifies creds
    ensures var b := Launch(Settings(uid, gids[..gidcount]), command, sys);
      trace == b.trace && outcome == b.outcome && creds.State() == ApplyAll(old(creds.State()), b.granted)
  {
    if |command| == 0 {
      return [], Fatal(NoCommand);
    }
    if !sys.counterOk {
      return [OpenCounter], Fatal(CounterUnavailable);
    }
    if !sys.forkOk {
      return [OpenCounter, Fork], Fatal(ForkFailed);
    }
    trace, outcome := Child(uid, gidcount, gids, command, sys, creds);
  }

  /** The child after `fork`: `Forked` for the settings `uid` and `gids[..gidcount]`. */
  method Child(uid: nat, gidcount: nat, gids: seq<nat>, command: seq<string>, sys: System, creds: Credentials)
    returns (trace: seq<Event>, outcome: Outcome)
    requires gidcount <= |gids| && |command| > 0
    modifies creds
    ensures var b := Forked(Settings(uid, gids[..gidcount]), command, sys);
      trace == b.trace && outcome == b.outcome && creds.State() == ApplyAll(old(creds.State()), b.granted)
  {
    var log0 := creds.log;
    var dropped := creds.SetUidGid(uid, gidcount, gids, sys.getpwuid, sys.callOk);
    ghost var d := Execute(Plan(uid, gids[..gidcount], sys.getpwuid), sys.callOk);
    AfterPrefix(log0, d.made);
    trace := [OpenCounter, Fork] + CredentialEvents(creds.log[|log0|..]);
    if dropped.Failure? {
      return trace, Fatal(DropFailed(dropped.error));
    }
    trace := trace + [ResetCounter, EnableCounter, Exec(command[0], command)];
    if sys.execOk(command[0]) {
      outcome := Executed;
    } else {
      outcome := Fatal(ExecFailed(command[0]));
    }
  }

  /** What an append adds after its prefix. */
  lemma AfterPrefix<T>(a: seq<T>, b: seq<T>)
    ensures (a + b)[|a|..] == b
  {
  }

  /**
   * One turn of the `getopt` loop: `-u` resolves and replaces the uid, `-g` parses
   * into `gids` and replaces the count, any other letter is fatal.
   */
  method ReadOption(opt: Opt, sys: System, uid: nat, gidcount: nat, gids: array<nat>)
    returns (stop: Option<Error>, uid': nat, gidcount': nat)
    requires ArgIsCString(opt) && gidcount <= gids.Length == GidCapacity
    modifies gids
    ensures gidcount' <= gids.Length
    ensures var step := Step(Settings(uid, old(gids[..gidcount])), opt, sys);
      && (stop.Some? <==> step.Failure?)
      && (stop.Some? ==> stop.value == step.error)
      && (stop.None? ==> step.value == Settings(uid', gids[..gidcount']))
  {
    uid', gidcount' := uid, gidcount;
    match opt {
      case UserOpt(a) =>
        var u := ResolveUser(a, sys.getpwnam);
        if u.Failure? {
          return Some(u.error), uid', gidcount';
        }
        uid' := u.value;
        stop := None;
      case GroupOpt(a) =>
        var n := ArrayOfUint(a, GidCapacity, gids, sys.getgrnam);
        if n.Failure? {
          return Some(BadGroups(n.error)), uid', gidcount';
        }
        gidcount' := n.value;
        assert gids[..gidcount'] == GroupList(a, GidCapacity, sys.getgrnam).value;
        stop := None;
      case OtherOpt(c) =>
        stop := Some(UnknownOption(c));
    }
  }
}
