/**
  The login-shell classifier: a single left-to-right pass over the program
  arguments whose only state is whether the previous token was a parameter
  still waiting for its value. The pass is stated over the tokens' classes
  (`ScanClasses`), so that its properties do not depend on the flag table;
  `Classes` links it to the argument strings.
 */
module Classifier {

  import opened Wrappers
  import opened Grammar
  import opened Seqs

  /** A token class that ends the scan with "not login". */
  predicate Stops(c: TokenClass)
  {
    c == Filename || c == Unrecognised || c == Flag(DisqualifiesLogin)
  }

  /** Where a scan stands: decided early, or ran out of tokens in a given state. */
  datatype ScanState =
    | Decided(login: bool)
    | Exhausted(expecting: bool)

  /**
    Scans the classes `cs` of the tokens, starting in state `expecting`. A
    token in value position is skipped unread; otherwise a filename, an
    unrecognised flag or a disqualifying flag decides "not login", the login
    flag decides "login", a value-taking flag moves to the expecting state
    and a benign flag leaves the state as it is.
   */
  function ScanClasses(cs: seq<TokenClass>, expecting: bool): (r: ScanState)
    ensures r == Decided(true) ==> exists k | 0 <= k < |cs| :: cs[k] == Flag(TriggersLogin)
    ensures r == Decided(false) ==> exists k | 0 <= k < |cs| :: Stops(cs[k])
    ensures r == Exhausted(true) ==> (|cs| == 0 && expecting) || (|cs| > 0 && cs[|cs| - 1] == Flag(ConsumesValue))
    decreases |cs|
  {
    if |cs| == 0 then Exhausted(expecting)
    else if expecting then ScanClasses(cs[1..], false)
    else
      match cs[0]
      case Filename => Decided(false)
      case Unrecognised => Decided(false)
      case Flag(TriggersLogin) => Decided(true)
      case Flag(DisqualifiesLogin) => Decided(false)
      case Flag(ConsumesValue) => ScanClasses(cs[1..], true)
      case Flag(Benign) => ScanClasses(cs[1..], false)
  }

  /** The class of every argument, in order. */
  function Classes(args: seq<string>): (cs: seq<TokenClass>)
    ensures |cs| == |args|
    ensures forall k | 0 <= k < |args| :: cs[k] == Classify(args[k])
  {
    Map(Classify, args)
  }

  /**
    Is this a login invocation? A leading `-` in argv[0] says yes at once;
    otherwise the scan decides, and a scan that reaches the end of the
    arguments, even while a parameter still waits for its value, says no.
   */
  function IsLogin(argv0FirstChar: char, programArgs: seq<string>): (r: bool)
    ensures argv0FirstChar == '-' ==> r
    ensures r && argv0FirstChar != '-' ==>
      exists k | 0 <= k < |programArgs| :: Classify(programArgs[k]) == Flag(TriggersLogin)
  {
    if argv0FirstChar == '-' then true
    else
      match ScanClasses(Classes(programArgs), false)
      case Decided(login) => login
      case Exhausted(_) => false
  }

  /**
    Scanning a concatenation is scanning the first part and, unless that
    decided, carrying its final state into the second: each token is
    visited once, left to right.
   */
  lemma {:induction false} ScanAppend(a: seq<TokenClass>, b: seq<TokenClass>, expecting: bool)
    ensures ScanClasses(a + b, expecting) ==
      match ScanClasses(a, expecting)
      case Decided(login) => Decided(login)
      case Exhausted(e) => ScanClasses(b, e)
    decreases |a|
  {
    if |a| == 0 {
      assert a + b == b;
    } else {
      assert (a + b)[0] == a[0];
      assert (a + b)[1..] == a[1..] + b;
      if expecting {
        ScanAppend(a[1..], b, false);
      } else {
        match a[0]
        case Filename =>
        case Unrecognised =>
        case Flag(TriggersLogin) =>
        case Flag(DisqualifiesLogin) =>
        case Flag(ConsumesValue) => ScanAppend(a[1..], b, true);
        case Flag(Benign) => ScanAppend(a[1..], b, false);
      }
    }
  }

  /** A login flag reached in flag position decides "login". */
  lemma LoginFlagInFlagPositionDecides(cs: seq<TokenClass>, expecting: bool, k: nat)
    requires k < |cs|
    requires ScanClasses(cs[..k], expecting) == Exhausted(false)
    requires cs[k] == Flag(TriggersLogin)
    ensures ScanClasses(cs, expecting) == Decided(true)
  {
    assert cs == cs[..k] + cs[k..];
    ScanAppend(cs[..k], cs[k..], expecting);
    assert cs[k..][0] == cs[k];
  }

  /** A scan that decides "login" reached a login flag in flag position. */
  lemma {:induction false} DecidedLoginHasLoginFlag(cs: seq<TokenClass>, expecting: bool) returns (k: nat)
    requires ScanClasses(cs, expecting) == Decided(true)
    ensures k < |cs| && ScanClasses(cs[..k], expecting) == Exhausted(false) && cs[k] == Flag(TriggersLogin)
    decreases |cs|
  {
    assert cs[..0] == [];
    if !expecting && cs[0] == Flag(TriggersLogin) {
      k := 0;
    } else {
      var next := !expecting && cs[0] == Flag(ConsumesValue);
      var rest := cs[1..];
      var j := DecidedLoginHasLoginFlag(rest, next);
      k := j + 1;
      assert cs[..k] == [cs[0]] + rest[..j];
      ScanAppend([cs[0]], rest[..j], expecting);
    }
  }

  /**
    The scan decides "login" exactly when some token is the login flag and
    the tokens before it scan to the end without deciding and without
    leaving a parameter waiting for its value.
   */
  lemma {:induction false} LoginIffLoginFlagInFlagPosition(cs: seq<TokenClass>, expecting: bool)
    ensures ScanClasses(cs, expecting) == Decided(true) <==>
      exists k | 0 <= k < |cs| ::
        ScanClasses(cs[..k], expecting) == Exhausted(false) && cs[k] == Flag(TriggersLogin)
  {
    if ScanClasses(cs, expecting) == Decided(true) {
      var k := DecidedLoginHasLoginFlag(cs, expecting);
    }
    forall k | 0 <= k < |cs| && ScanClasses(cs[..k], expecting) == Exhausted(false) && cs[k] == Flag(TriggersLogin)
      ensures ScanClasses(cs, expecting) == Decided(true)
    {
      LoginFlagInFlagPositionDecides(cs, expecting, k);
    }
  }

  /** One step of the scan, for a sequence with a known first class. */
  lemma ScanStep(c: TokenClass, cs: seq<TokenClass>, expecting: bool)
    ensures ScanClasses([c] + cs, expecting) ==
      if expecting then ScanClasses(cs, false)
      else match c
        case Filename => Decided(false)
        case Unrecognised => Decided(false)
        case Flag(TriggersLogin) => Decided(true)
        case Flag(DisqualifiesLogin) => Decided(false)
        case Flag(ConsumesValue) => ScanClasses(cs, true)
        case Flag(Benign) => ScanClasses(cs, false)
  {
  }

  /** A value-taking flag followed by any token: the scan resumes after both. */
  lemma ScanSkipsValue(c: TokenClass, cs: seq<TokenClass>)
    ensures ScanClasses([Flag(ConsumesValue), c] + cs, false) == ScanClasses(cs, false)
  {
  }

  lemma ClassesCons(token: string, rest: seq<string>)
    ensures Classes([token] + rest) == [Classify(token)] + Classes(rest)
  {
    MapCons(Classify, token, rest);
  }

  lemma ClassesAppend(a: seq<string>, b: seq<string>)
    ensures Classes(a + b) == Classes(a) + Classes(b)
  {
    MapAppend(Classify, a, b);
  }

  /** Once a prefix of the arguments decides, nothing after it matters. */
  lemma {:induction false} FirstDecisiveTokenWins(argv0FirstChar: char, a: seq<string>, b: seq<string>)
    requires ScanClasses(Classes(a), false).Decided?
    ensures IsLogin(argv0FirstChar, a + b) == IsLogin(argv0FirstChar, a)
  {
    ClassesAppend(a, b);
    ScanAppend(Classes(a), Classes(b), false);
  }

  /**
    Without a leading `-` in argv[0], the invocation is a login one exactly
    when some argument is the login flag and the arguments before it scan
    to the end without deciding and without a parameter left waiting.
   */
  lemma {:induction false} IsLoginIffLoginFlagInFlagPosition(argv0FirstChar: char, args: seq<string>)
    requires argv0FirstChar != '-'
    ensures IsLogin(argv0FirstChar, args) <==>
      exists k | 0 <= k < |args| ::
        ScanClasses(Classes(args[..k]), false) == Exhausted(false) && Classify(args[k]) == Flag(TriggersLogin)
  {
    LoginIffLoginFlagInFlagPosition(Classes(args), false);
    forall k | 0 <= k < |args|
      ensures Classes(args[..k]) == Classes(args)[..k]
    {
      MapTake(Classify, args, k);
    }
  }

  /** With no arguments and no leading `-` in argv[0], this is not a login invocation. */
  lemma NoArgumentsIsNotLogin(argv0FirstChar: char)
    requires argv0FirstChar != '-'
    ensures !IsLogin(argv0FirstChar, [])
  {
  }

  /**
    After arguments that scan to the end undecided and with no value
    pending, the next token is read in flag position: the scan goes on
    exactly as if it were the first argument.
   */
  lemma ScanAfterUndecidedPrefix(a: seq<string>, token: string, rest: seq<string>)
    requires ScanClasses(Classes(a), false) == Exhausted(false)
    ensures ScanClasses(Classes(a + [token] + rest), false) == ScanClasses([Classify(token)] + Classes(rest), false)
  {
    assert a + [token] + rest == a + ([token] + rest);
    ClassesAppend(a, [token] + rest);
    ClassesCons(token, rest);
    ScanAppend(Classes(a), Classes([token] + rest), false);
  }

  /**
    A filename-shaped token in flag position (after arguments that leave
    the scan undecided with no value pending) decides "not login".
   */
  lemma FilenameDecidesNotLogin(argv0FirstChar: char, a: seq<string>, token: string, rest: seq<string>)
    requires argv0FirstChar != '-'
    requires ScanClasses(Classes(a), false) == Exhausted(false)
    requires |token| == 0 || token[0] != '-' || |token| == 1 || token[1] == '?'
    ensures !IsLogin(argv0FirstChar, a + [token] + rest)
  {
    ScanAfterUndecidedPrefix(a, token, rest);
    ScanStep(Filename, Classes(rest), false);
  }

  /** A dash-prefixed token the table does not know, in flag position, counts as a filename. */
  lemma UnrecognisedFlagDecidesNotLogin(argv0FirstChar: char, a: seq<string>, token: string, rest: seq<string>)
    requires argv0FirstChar != '-'
    requires ScanClasses(Classes(a), false) == Exhausted(false)
    requires !FilenameShaped(token)
    requires forall k | 0 <= k < |Table| :: !Matches(token, Table[k])
    ensures !IsLogin(argv0FirstChar, a + [token] + rest)
  {
    ScanAfterUndecidedPrefix(a, token, rest);
    ScanStep(Unrecognised, Classes(rest), false);
  }

  /** `-Login`, or any abbreviation of it down to `-l` in any case, in flag position decides "login". */
  lemma LoginFlagDecidesLogin(argv0FirstChar: char, a: seq<string>, token: string, rest: seq<string>)
    requires ScanClasses(Classes(a), false) == Exhausted(false)
    requires IsParam(token, "login", "l", None)
    ensures IsLogin(argv0FirstChar, a + [token] + rest)
  {
    LoginNameClassifies(token);
    ScanAfterUndecidedPrefix(a, token, rest);
    ScanStep(Flag(TriggersLogin), Classes(rest), false);
  }

  /** `-File`, `-Command`, `-Version` or `-Help` (or an abbreviation) in flag position decides "not login". */
  lemma DisqualifyingFlagDecidesNotLogin(argv0FirstChar: char, a: seq<string>, token: string, rest: seq<string>)
    requires argv0FirstChar != '-'
    requires ScanClasses(Classes(a), false) == Exhausted(false)
    requires || IsParam(token, "file", "f", None)
             || IsParam(token, "command", "c", None)
             || IsParam(token, "version", "v", None)
             || IsParam(token, "help", "h", None)
    ensures !IsLogin(argv0FirstChar, a + [token] + rest)
  {
    DisqualifyingNamesClassify(token);
    ScanAfterUndecidedPrefix(a, token, rest);
    ScanStep(Flag(DisqualifiesLogin), Classes(rest), false);
  }

  /** After an undecided prefix, the scan goes on as if the prefix were not there. */
  lemma UndecidedPrefixDropsOut(a: seq<string>, rest: seq<string>)
    requires ScanClasses(Classes(a), false) == Exhausted(false)
    ensures ScanClasses(Classes(a + rest), false) == ScanClasses(Classes(rest), false)
  {
    ClassesAppend(a, rest);
    ScanAppend(Classes(a), Classes(rest), false);
  }

  /**
    The token after a value-taking parameter in flag position is consumed
    unread; the scan resumes after it as if neither were there.
   */
  lemma ValueFlagSkipsItsValue(argv0FirstChar: char, a: seq<string>, token: string, value: string, rest: seq<string>)
    requires ScanClasses(Classes(a), false) == Exhausted(false)
    requires Classify(token) == Flag(ConsumesValue)
    ensures IsLogin(argv0FirstChar, a + [token, value] + rest) == IsLogin(argv0FirstChar, a + rest)
  {
    assert a + [token, value] + rest == a + ([token, value] + rest);
    UndecidedPrefixDropsOut(a, [token, value] + rest);
    MapPair(Classify, token, value, rest);
    ScanSkipsValue(Classify(value), Classes(rest));
    UndecidedPrefixDropsOut(a, rest);
  }

  /**
    A value-taking parameter in flag position as the last token leaves the
    scan waiting for a value, and the answer is "not login".
   */
  lemma TrailingValueFlagIsNotLogin(argv0FirstChar: char, a: seq<string>, token: string)
    requires argv0FirstChar != '-'
    requires ScanClasses(Classes(a), false) == Exhausted(false)
    requires Classify(token) == Flag(ConsumesValue)
    ensures ScanClasses(Classes(a + [token]), false) == Exhausted(true)
    ensures !IsLogin(argv0FirstChar, a + [token])
  {
    assert a + [token] == a + [token] + [];
    ScanAfterUndecidedPrefix(a, token, []);
    ScanStep(Flag(ConsumesValue), Classes([]), false);
  }

  /** A benign switch in flag position consumes nothing and leaves the decision to the tokens after it. */
  lemma BenignFlagContinues(argv0FirstChar: char, a: seq<string>, token: string, rest: seq<string>)
    requires ScanClasses(Classes(a), false) == Exhausted(false)
    requires Classify(token) == Flag(Benign)
    ensures IsLogin(argv0FirstChar, a + [token] + rest) == IsLogin(argv0FirstChar, a + rest)
  {
    ScanAfterUndecidedPrefix(a, token, rest);
    ScanStep(Flag(Benign), Classes(rest), false);
    UndecidedPrefixDropsOut(a, rest);
  }

  /**
    `-ExecutionPolicy <policy> -File <script>` (for instance
    `-ExecutionPolicy Bypass -File script.ps1`): the policy is consumed as
    the parameter's value, whatever it looks like, then `-File` decides
    "not login".
   */
  lemma ExecutionPolicyThenFileIsNotLogin(argv0FirstChar: char, policy: string, script: string)
    requires argv0FirstChar != '-'
    ensures !IsLogin(argv0FirstChar, ["-ExecutionPolicy", policy, "-File", script])
  {
    ExecutionPolicyClassifies();
    assert ["-ExecutionPolicy", policy, "-File", script] == ["-ExecutionPolicy", policy] + ["-File", script];
    assert ["-ExecutionPolicy", policy] + ["-File", script] == [] + ["-ExecutionPolicy", policy] + ["-File", script];
    assert ["-File", script] == [] + ["-File", script];
    ValueFlagSkipsItsValue(argv0FirstChar, [], "-ExecutionPolicy", policy, ["-File", script]);
    FileClassifies();
    assert ["-File", script] == ["-File"] + [script];
    ClassesCons("-File", [script]);
    ScanStep(Flag(DisqualifiesLogin), Classes([script]), false);
  }

  /**
    `-in` abbreviates both `-InputFormat` and `-Interactive`; the
    value-taking reading is checked first and wins, so in `-in -l` the `-l`
    is the input format and not the login flag.
   */
  lemma InputFormatAbbreviationTakesValue(argv0FirstChar: char)
    requires argv0FirstChar != '-'
    ensures !IsLogin(argv0FirstChar, ["-in", "-l"])
  {
    InAbbreviationClassifies();
    assert ["-in", "-l"] == [] + ["-in", "-l"] + [];
    ValueFlagSkipsItsValue(argv0FirstChar, [], "-in", "-l", []);
  }

  /** `-int` is only `-Interactive`, a benign switch, so in `-int -l` the `-l` is the login flag. */
  lemma InteractiveAbbreviationThenLoginIsLogin(argv0FirstChar: char)
    ensures IsLogin(argv0FirstChar, ["-int", "-l"])
  {
    InteractiveAbbreviationClassifies();
    assert ["-int", "-l"] == [] + ["-int"] + ["-l"];
    BenignFlagContinues(argv0FirstChar, [], "-int", ["-l"]);
    assert ["-l"] == [] + ["-l"] + [];
    LoginFlagDecidesLogin(argv0FirstChar, [], "-l", []);
  }

  /**
    The source's loop, over the classes of the tokens: one pass carrying a
    single `expecting` flag, returning as soon as a token decides and
    "not login" when the tokens run out.
   */
  method ScanLoop(cs: seq<TokenClass>) returns (r: bool)
    ensures r <==> ScanClasses(cs, false) == Decided(true)
  {
    var expecting := false;
    var i := 0;
    while i < |cs|
      invariant 0 <= i <= |cs|
      invariant ScanClasses(cs, false) == ScanClasses(cs[i..], expecting)
    {
      assert cs[i..] == [cs[i]] + cs[i + 1..];
      ScanStep(cs[i], cs[i + 1..], expecting);
      if expecting {
        expecting := false;
      } else {
        match cs[i] {
          case Filename => return false;
          case Unrecognised => return false;
          case Flag(TriggersLogin) => return true;
          case Flag(DisqualifiesLogin) => return false;
          case Flag(ConsumesValue) => expecting := true;
          case Flag(Benign) =>
        }
      }
      i := i + 1;
    }
    return false;
  }

  /**
    The decision computed as the source computes it: the argv[0] test, then
    the loop. Classification is pure, so classifying every token before the
    loop instead of inside it gives the same answer.
   */
  method IsLoginLoop(argv0FirstChar: char, programArgs: seq<string>) returns (r: bool)
    ensures r == IsLogin(argv0FirstChar, programArgs)
  {
    if argv0FirstChar == '-' {
      return true;
    }
    r := ScanLoop(Classes(programArgs));
  }
}
