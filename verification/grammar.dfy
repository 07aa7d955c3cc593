/**
  The flag grammar the login decision knows about: each recognised parameter,
  the shortest abbreviation it accepts, an optional exact alias, and what
  seeing it means for the login question. `IsParam` is the flag matcher and
  `Classify` applies the whole table to one token, in the fixed check order
  login, disqualifying, value-taking, benign.
 */
module Grammar {

  import opened Wrappers
  import opened Ascii

  /** What a recognised parameter means for the login decision. */
  datatype Disposition =
    | TriggersLogin      // -Login: this is a login invocation
    | DisqualifiesLogin  // -File, -Command, -Version, -Help
    | ConsumesValue      // a parameter whose value is the next token
    | Benign             // a switch that leaves the decision open

  /** The position of a disposition in the order the checks are made. */
  function Rank(d: Disposition): (r: nat)
    ensures r < 4
  {
    match d
    case TriggersLogin => 0
    case DisqualifiesLogin => 1
    case ConsumesValue => 2
    case Benign => 3
  }

  /**
    One grammar entry: the full (lower-case) name, the shortest prefix of it
    that still selects it, an optional exact alias, and its disposition.
   */
  datatype Param = Param(name: string, shortest: string, alias: Option<string>, disposition: Disposition)

  /** The table, in the order the checks are made. */
  const Table: seq<Param> := [
    Param("login", "l", None, TriggersLogin),
    Param("file", "f", None, DisqualifiesLogin),
    Param("command", "c", None, DisqualifiesLogin),
    Param("version", "v", None, DisqualifiesLogin),
    Param("help", "h", None, DisqualifiesLogin),
    Param("configurationname", "config", None, ConsumesValue),
    Param("custompipename", "cus", None, ConsumesValue),
    Param("encodedcommand", "e", Some("ec"), ConsumesValue),
    Param("executionpolicy", "ex", Some("ep"), ConsumesValue),
    Param("inputformat", "in", Some("if"), ConsumesValue),
    Param("outputformat", "o", Some("of"), ConsumesValue),
    Param("settingsfile", "settings", None, ConsumesValue),
    Param("windowstyle", "w", None, ConsumesValue),
    Param("workingdirectory", "wo", Some("wd"), ConsumesValue),
    Param("interactive", "i", None, Benign),
    Param("noexit", "noe", None, Benign),
    Param("nologo", "nol", None, Benign),
    Param("noninteractive", "noni", None, Benign),
    Param("noprofile", "nop", None, Benign)
  ]

  /** An entry is usable: its shortest prefix is a prefix of its name, and names are lower case. */
  predicate WellFormedParam(p: Param)
  {
    && |p.shortest| > 0
    && p.shortest <= p.name
    && NoUpper(p.name)
    && (p.alias.Some? ==> NoUpper(p.alias.value))
  }

  // One lemma per entry keeps each check on the string literals small.

  lemma LoginEntryWellFormed()
    ensures WellFormedParam(Table[0])
  {
  }

  lemma FileEntryWellFormed()
    ensures WellFormedParam(Table[1])
  {
  }

  lemma CommandEntryWellFormed()
    ensures WellFormedParam(Table[2])
  {
  }

  lemma VersionEntryWellFormed()
    ensures WellFormedParam(Table[3])
  {
  }

  lemma HelpEntryWellFormed()
    ensures WellFormedParam(Table[4])
  {
  }

  lemma ConfigurationNameEntryWellFormed()
    ensures WellFormedParam(Table[5])
  {
  }

  lemma CustomPipeNameEntryWellFormed()
    ensures WellFormedParam(Table[6])
  {
  }

  lemma EncodedCommandEntryWellFormed()
    ensures WellFormedParam(Table[7])
  {
  }

  lemma ExecutionPolicyEntryWellFormed()
    ensures WellFormedParam(Table[8])
  {
  }

  lemma InputFormatEntryWellFormed()
    ensures WellFormedParam(Table[9])
  {
  }

  lemma OutputFormatEntryWellFormed()
    ensures WellFormedParam(Table[10])
  {
  }

  lemma SettingsFileEntryWellFormed()
    ensures WellFormedParam(Table[11])
  {
  }

  lemma WindowStyleEntryWellFormed()
    ensures WellFormedParam(Table[12])
  {
  }

  lemma WorkingDirectoryEntryWellFormed()
    ensures WellFormedParam(Table[13])
  {
  }

  lemma InteractiveEntryWellFormed()
    ensures WellFormedParam(Table[14])
  {
  }

  lemma NoExitEntryWellFormed()
    ensures WellFormedParam(Table[15])
  {
  }

  lemma NoLogoEntryWellFormed()
    ensures WellFormedParam(Table[16])
  {
  }

  lemma NonInteractiveEntryWellFormed()
    ensures WellFormedParam(Table[17])
  {
  }

  lemma NoProfileEntryWellFormed()
    ensures WellFormedParam(Table[18])
  {
  }

  /** Every entry of the table is well formed. */
  lemma TableWellFormed()
    ensures forall k | 0 <= k < |Table| :: WellFormedParam(Table[k])
  {
    LoginEntryWellFormed();
    FileEntryWellFormed();
    CommandEntryWellFormed();
    VersionEntryWellFormed();
    HelpEntryWellFormed();
    ConfigurationNameEntryWellFormed();
    CustomPipeNameEntryWellFormed();
    EncodedCommandEntryWellFormed();
    ExecutionPolicyEntryWellFormed();
    InputFormatEntryWellFormed();
    OutputFormatEntryWellFormed();
    SettingsFileEntryWellFormed();
    WindowStyleEntryWellFormed();
    WorkingDirectoryEntryWellFormed();
    InteractiveEntryWellFormed();
    NoExitEntryWellFormed();
    NoLogoEntryWellFormed();
    NonInteractiveEntryWellFormed();
    NoProfileEntryWellFormed();
  }

  /** The table lists the entries in check order, so an earlier entry never has a later rank. */
  lemma TableOrderedByRank()
    ensures forall i, j | 0 <= i <= j < |Table| :: Rank(Table[i].disposition) <= Rank(Table[j].disposition)
  {
  }

  /**
    The flag matcher. The leading `-` is stripped and the remainder, folded
    to lower case, must lie between `shortestPrefix` and `fullParam` in the
    prefix order (an abbreviation at least as long as the shortest one), or
    be exactly the alias.
   */
  function IsParam(arg: string, fullParam: string, shortestPrefix: string, alias: Option<string>): (r: bool)
    ensures r ==> |arg| >= 1 && arg[0] == '-'
    ensures r ==> |arg| - 1 <= |fullParam| || (alias.Some? && |arg| - 1 == |alias.value|)
  {
    && |arg| >= 1
    && arg[0] == '-'
    && var rest := LowerAll(arg[1..]);
       || (shortestPrefix <= rest && rest <= fullParam)
       || (alias.Some? && rest == alias.value)
  }

  /** `token` selects grammar entry `p`. */
  function Matches(token: string, p: Param): bool
  {
    IsParam(token, p.name, p.shortest, p.alias)
  }

  /**
    `IsParam` accepts exactly a dash followed by a case variant of an
    abbreviation of the full name no shorter than the shortest prefix, or a
    case variant of the alias.
   */
  lemma IsParamAcceptsSpellings(w: string, fullParam: string, shortestPrefix: string, alias: Option<string>)
    requires shortestPrefix <= fullParam && NoUpper(fullParam)
    requires alias.Some? ==> NoUpper(alias.value)
    ensures IsParam("-" + w, fullParam, shortestPrefix, alias) <==>
      || (|shortestPrefix| <= |w| <= |fullParam| && CaseVariant(w, fullParam[..|w|]))
      || (alias.Some? && CaseVariant(w, alias.value))
  {
  }

  /**
    Every entry of the table accepts exactly the spellings its row promises:
    a dash, then any case variant of an abbreviation of the full name no
    shorter than the shortest prefix, or any case variant of the alias.
   */
  lemma EntryAcceptsSpellings(k: nat, w: string)
    requires k < |Table|
    ensures Matches("-" + w, Table[k]) <==>
      || (|Table[k].shortest| <= |w| <= |Table[k].name| && CaseVariant(w, Table[k].name[..|w|]))
      || (Table[k].alias.Some? && CaseVariant(w, Table[k].alias.value))
  {
    TableWellFormed();
    var p := Table[k];
    IsParamAcceptsSpellings(w, p.name, p.shortest, p.alias);
  }

  /**
    A token the scan rejects as a filename before consulting the table:
    empty, not starting with `-`, `-` alone, or `-?` and anything after it.
   */
  predicate FilenameShaped(token: string)
  {
    || |token| == 0
    || token[0] != '-'
    || |token| == 1
    || token[1] == '?'
  }

  /** How one token outside a value position is read. */
  datatype TokenClass =
    | Filename             // empty, no leading dash, "-" alone, or "-?..."
    | Flag(d: Disposition) // matched an entry of the table
    | Unrecognised         // dash-prefixed but matches no entry

  /** The index of the first entry of `ps` at or after `from` that `token` selects. */
  function FirstMatch(ps: seq<Param>, token: string, from: nat): (r: Option<nat>)
    requires from <= |ps|
    ensures r.Some? ==> from <= r.value < |ps| && Matches(token, ps[r.value])
    ensures r.Some? ==> forall k | from <= k < r.value :: !Matches(token, ps[k])
    ensures r.None? ==> forall k | from <= k < |ps| :: !Matches(token, ps[k])
    decreases |ps| - from
  {
    if from == |ps| then None
    else if Matches(token, ps[from]) then Some(from)
    else FirstMatch(ps, token, from + 1)
  }

  /**
    Reads one token outside a value position: first the filename shapes,
    then the table in order. A flag's class is the disposition of the
    earliest-ranked entry the token selects.
   */
  function Classify(token: string): (r: TokenClass)
    ensures r == Filename <==> FilenameShaped(token)
    ensures r == Unrecognised <==> !FilenameShaped(token) && forall k | 0 <= k < |Table| :: !Matches(token, Table[k])
    ensures r.Flag? ==> exists k | 0 <= k < |Table| :: Matches(token, Table[k]) && Table[k].disposition == r.d
    ensures r.Flag? ==> forall k | 0 <= k < |Table| && Matches(token, Table[k]) :: Rank(r.d) <= Rank(Table[k].disposition)
  {
    if FilenameShaped(token) then Filename
    else
      match FirstMatch(Table, token, 0)
      case None => Unrecognised
      case Some(i) =>
        TableOrderedByRank();
        Flag(Table[i].disposition)
  }

  /**
    The check order, stated without the table's layout: a flag-shaped token
    is classified as `d` exactly when some entry with disposition `d`
    selects it and no entry of an earlier-checked disposition does.
   */
  lemma ClassifyFollowsCheckOrder(token: string, d: Disposition)
    ensures Classify(token) == Flag(d) <==>
      && !FilenameShaped(token)
      && (exists k | 0 <= k < |Table| :: Matches(token, Table[k]) && Table[k].disposition == d)
      && (forall k | 0 <= k < |Table| && Matches(token, Table[k]) :: Rank(d) <= Rank(Table[k].disposition))
  {
  }

  /** Classification ignores letter case. */
  lemma ClassifyIgnoresCase(token: string)
    ensures Classify(LowerAll(token)) == Classify(token)
  {
    var t := LowerAll(token);
    if |token| >= 1 {
      LowerAllSlice(token, 1);
      LowerAllIdempotent(token[1..]);
      assert LowerAll(t[1..]) == LowerAll(token[1..]);
      forall k | 0 <= k < |Table|
        ensures Matches(t, Table[k]) == Matches(token, Table[k])
      {
      }
    }
  }

  /** `-Login`, or an abbreviation of it down to `-l` in any case, is read as the login flag. */
  lemma LoginNameClassifies(token: string)
    requires IsParam(token, "login", "l", None)
    ensures Classify(token) == Flag(TriggersLogin)
  {
  }

  /** A flag-shaped token whose first matching entry is `j` takes that entry's disposition. */
  lemma ClassifyByFirstEntry(token: string, j: nat)
    requires !FilenameShaped(token)
    requires j < |Table| && Matches(token, Table[j])
    requires forall k | 0 <= k < j :: !Matches(token, Table[k])
    ensures Classify(token) == Flag(Table[j].disposition)
  {
  }

  /** A token that `IsParam` accepts for a name starting with `c` starts with `-` and `c` in either case. */
  lemma IsParamFirstLetter(token: string, fullParam: string, shortestPrefix: string)
    requires |shortestPrefix| > 0
    requires IsParam(token, fullParam, shortestPrefix, None)
    ensures |token| >= 2 && Lower(token[1]) == shortestPrefix[0]
  {
  }

  lemma FileNameClassifies(token: string)
    requires IsParam(token, "file", "f", None)
    ensures Classify(token) == Flag(DisqualifiesLogin)
  {
    IsParamFirstLetter(token, "file", "f");
    ClassifyByFirstEntry(token, 1);
  }

  lemma CommandNameClassifies(token: string)
    requires IsParam(token, "command", "c", None)
    ensures Classify(token) == Flag(DisqualifiesLogin)
  {
    IsParamFirstLetter(token, "command", "c");
    ClassifyByFirstEntry(token, 2);
  }

  lemma VersionNameClassifies(token: string)
    requires IsParam(token, "version", "v", None)
    ensures Classify(token) == Flag(DisqualifiesLogin)
  {
    IsParamFirstLetter(token, "version", "v");
    ClassifyByFirstEntry(token, 3);
  }

  lemma HelpNameClassifies(token: string)
    requires IsParam(token, "help", "h", None)
    ensures Classify(token) == Flag(DisqualifiesLogin)
  {
    IsParamFirstLetter(token, "help", "h");
    ClassifyByFirstEntry(token, 4);
  }

  /** `-File`, `-Command`, `-Version` and `-Help`, or their abbreviations, are read as disqualifying. */
  lemma DisqualifyingNamesClassify(token: string)
    requires || IsParam(token, "file", "f", None)
             || IsParam(token, "command", "c", None)
             || IsParam(token, "version", "v", None)
             || IsParam(token, "help", "h", None)
    ensures Classify(token) == Flag(DisqualifiesLogin)
  {
    if IsParam(token, "file", "f", None) {
      FileNameClassifies(token);
    } else if IsParam(token, "command", "c", None) {
      CommandNameClassifies(token);
    } else if IsParam(token, "version", "v", None) {
      VersionNameClassifies(token);
    } else {
      HelpNameClassifies(token);
    }
  }

  /** `-ExecutionPolicy` is read as a value-taking parameter. */
  lemma ExecutionPolicyClassifies()
    ensures Classify("-ExecutionPolicy") == Flag(ConsumesValue)
  {
    assert LowerAll("-ExecutionPolicy"[1..]) == "executionpolicy";
    ClassifyByFirstEntry("-ExecutionPolicy", 8);
  }

  /** `-int` abbreviates `-Interactive` and matches no other entry. */
  lemma InteractiveAbbreviationIsUnambiguous()
    ensures Matches("-int", Table[14])
    ensures forall k | 0 <= k < |Table| && k != 14 :: !Matches("-int", Table[k])
  {
    assert LowerAll("-int"[1..]) == "int";
    assert "inputformat"[2] != "int"[2];
    forall k | 0 <= k < |Table| && k != 9 && k != 14
      ensures !Matches("-int", Table[k])
    {
      TableWellFormed();
      assert Table[k].shortest[0] != 'i';
      assert Table[k].alias.Some? ==> |Table[k].alias.value| == 2;
    }
  }

  /** `-int` is read as benign; `InteractiveAbbreviationIsUnambiguous` shows it selects only `-Interactive`. */
  lemma InteractiveAbbreviationClassifies()
    ensures Classify("-int") == Flag(Benign)
  {
    assert LowerAll("-int"[1..]) == "int";
    assert "inputformat"[2] != "int"[2];
    ClassifyByFirstEntry("-int", 14);
  }

  /** `-File` is read as disqualifying. */
  lemma FileClassifies()
    ensures Classify("-File") == Flag(DisqualifiesLogin)
  {
    assert LowerAll("-File"[1..]) == "file";
    FileNameClassifies("-File");
  }

  /** `-in` abbreviates both `-InputFormat` and `-Interactive`: the table's prefix sets overlap. */
  lemma InAbbreviationIsAmbiguous()
    ensures Matches("-in", Table[9]) && Matches("-in", Table[14])
  {
  }

  /** Value-taking parameters are checked first, so `-in` is read as `-InputFormat`. */
  lemma InAbbreviationClassifies()
    ensures Classify("-in") == Flag(ConsumesValue)
  {
    InAbbreviationIsAmbiguous();
    ClassifyByFirstEntry("-in", 9);
  }
}
