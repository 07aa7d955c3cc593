/**
  The entry point: check and arm the recursion guard, then on macOS walk
  the kernel's argument blob, classify, and either proceed with normal
  startup or replace the process with the login shell running the original
  executable and arguments.
 */
module LoginStart {

  import opened Wrappers
  import opened Guard
  import opened ProcArgs
  import opened Classifier

  /** The platform the library was built for. */
  datatype Platform = Linux | MacOS | OtherPlatform

  /** The login shell the macOS path re-executes through. */
  const LoginShell: string := "/bin/zsh"

  /** What the entry point does. */
  datatype Outcome =
    | Proceed                                                        // return 0: continue normal startup
    | ExecLoginShell(shell: string, execPath: seq<bv8>, args: seq<string>) // replace the process
    | LinuxAttempt(args: seq<string>)                                 // handed to the Linux path
    | ProcArgsUnreadable                                              // the blob has no argv[0] to read

  /** The result of the entry point together with the environment it leaves. */
  datatype Start = Start(outcome: Outcome, env: Env)

  /** The C `char` for a byte of the blob; only its comparison with `-` matters. */
  function ByteToChar(b: bv8): (c: char)
    ensures c == '-' <==> b == 0x2D
  {
    (b as int) as char
  }

  /**
    The macOS path: walk the blob, classify with argv[0]'s first byte, and
    re-exec through the login shell only for a login invocation, handing it
    the recovered executable path and the arguments unchanged.
   */
  function AttemptLoginMacOS(procargs: seq<bv8>, programArgs: seq<string>): (o: Outcome)
    ensures o == ProcArgsUnreadable <==> !HasArgv0(procargs)
    ensures o.ExecLoginShell? <==>
      HasArgv0(procargs) && IsLogin(ByteToChar(Walk(procargs).value.argv0FirstChar), programArgs)
    ensures o.ExecLoginShell? ==>
      o.shell == LoginShell && o.execPath == Walk(procargs).value.execPath && o.args == programArgs
    ensures !o.LinuxAttempt?
  {
    match Walk(procargs)
    case None => ProcArgsUnreadable
    case Some(resolved) =>
      if IsLogin(ByteToChar(resolved.argv0FirstChar), programArgs) then
        ExecLoginShell(LoginShell, resolved.execPath, programArgs)
      else
        Proceed
  }

  /**
    The entry point. The guard is checked first: if it was already set the
    call proceeds without classifying; otherwise it is armed before any
    platform path runs.
   */
  function AttemptLoginStart(guardName: string, env: Env, platform: Platform, procargs: seq<bv8>, programArgs: seq<string>): (r: Start)
    ensures guardName in env ==> r.outcome == Proceed && guardName !in r.env
    ensures guardName !in env ==> guardName in r.env && r.env[guardName] == GuardValue
    ensures forall k | k != guardName :: k in r.env <==> k in env
    ensures forall k | k != guardName && k in env :: r.env[k] == env[k]
    ensures r.outcome.ExecLoginShell? ==> guardName !in env && platform == MacOS && r.outcome.args == programArgs
    ensures r.outcome.LinuxAttempt? ==> guardName !in env && platform == Linux
    ensures guardName !in env ==>
      r.outcome == (match platform
                    case Linux => LinuxAttempt(programArgs)
                    case MacOS => AttemptLoginMacOS(procargs, programArgs)
                    case OtherPlatform => Proceed)
  {
    var check := CheckAndArm(env, guardName);
    if check.alreadyArmed then Start(Proceed, check.env)
    else
      match platform
      case Linux => Start(LinuxAttempt(programArgs), check.env)
      case MacOS => Start(AttemptLoginMacOS(procargs, programArgs), check.env)
      case OtherPlatform => Start(Proceed, check.env)
  }

  /**
    At most one re-exec per launch, for a child handed the armed
    environment unchanged: its own call proceeds without classifying and
    leaves the environment as it was before the first call. A child whose
    login shell changed other variables is `InheritedGuardProceeds`.
   */
  lemma ReexecHappensAtMostOnce(guardName: string, env: Env, platform: Platform,
                                procargs: seq<bv8>, programArgs: seq<string>,
                                childProcargs: seq<bv8>, childArgs: seq<string>)
    requires guardName !in env
    ensures var first := AttemptLoginStart(guardName, env, platform, procargs, programArgs);
            AttemptLoginStart(guardName, first.env, platform, childProcargs, childArgs) == Start(Proceed, env)
  {
  }

  /**
    A process whose environment still holds the guard (the re-executed
    child, whatever the login shell's startup files did to the other
    variables) proceeds without classifying, and only the guard is removed.
   */
  lemma InheritedGuardProceeds(guardName: string, childEnv: Env, platform: Platform,
                               procargs: seq<bv8>, programArgs: seq<string>)
    requires guardName in childEnv
    ensures AttemptLoginStart(guardName, childEnv, platform, procargs, programArgs)
      == Start(Proceed, childEnv - {guardName})
  {
  }

  /**
    A login-style argv[0] (`-zsh`-like, first byte `-`) on macOS with the
    guard unset always re-execs, whatever the arguments are.
   */
  lemma DashArgv0ReexecsOnMacOS(guardName: string, env: Env, procargs: seq<bv8>, programArgs: seq<string>)
    requires guardName !in env
    requires HasArgv0(procargs) && Walk(procargs).value.argv0FirstChar == 0x2D
    ensures AttemptLoginStart(guardName, env, MacOS, procargs, programArgs).outcome
      == ExecLoginShell(LoginShell, Walk(procargs).value.execPath, programArgs)
  {
  }
}
