/**
  The recursion guard: an environment variable, named by the caller, whose
  presence means "this process is already the result of a re-exec". The
  process environment is modelled as a map from names to values.
 */
module Guard {

  type Env = map<string, string>

  /** The only value the guard is ever set to. */
  const GuardValue: string := "1"

  /** The result of checking the guard: whether it was already set, and the environment afterwards. */
  datatype GuardCheck = GuardCheck(alreadyArmed: bool, env: Env)

  /**
    Checks and arms the guard. If the variable is present it is removed and
    the caller must not re-exec; otherwise it is set to "1" so that the
    re-exec'd process will see it. No other variable changes either way.
   */
  function CheckAndArm(env: Env, name: string): (r: GuardCheck)
    ensures r.alreadyArmed <==> name in env
    ensures r.alreadyArmed ==> name !in r.env
    ensures !r.alreadyArmed ==> name in r.env && r.env[name] == GuardValue
    ensures forall k | k != name :: k in r.env <==> k in env
    ensures forall k | k != name && k in env :: r.env[k] == env[k]
  {
    if name in env then GuardCheck(true, env - {name})
    else GuardCheck(false, env[name := GuardValue])
  }

  /**
    Arming then checking again (the re-exec'd process inherits the armed
    environment) reports "already armed" and gives back the environment the
    first check started from.
   */
  lemma ArmThenCheckRestores(env: Env, name: string)
    requires name !in env
    ensures CheckAndArm(env, name).alreadyArmed == false
    ensures CheckAndArm(CheckAndArm(env, name).env, name) == GuardCheck(true, env)
  {
  }
}
