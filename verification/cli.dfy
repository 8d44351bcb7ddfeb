/**
 The binsmith entry-point shim: before handing control to the lattis
 command line it decides where lattis keeps its data. The workspace mode is
 read from the environment or from a `--workspace` flag, normalised to
 `central` or `local`, turned into a data directory, and written into the
 environment unless the user already set one.

 The process environment is an immutable map in and out, the home
 directory is a parameter, and the delegate call is represented by the
 argument list it would receive.
 */
module Cli {
  import opened Options
  import opened Text

  /** The two workspace modes the shim recognises. */
  datatype Mode = Central | Local {
    /** The string the source uses for the mode. */
    function Name(): string {
      match this
      case Central => "central"
      case Local => "local"
    }
  }

  type Env = map<string, string>

  const AgentDefaultKey := "AGENT_DEFAULT"
  const AgentDefaultValue := "binsmith"
  const DataDirKey := "LATTIS_DATA_DIR"
  const WorkspaceModeKey := "LATTIS_WORKSPACE_MODE"
  const ProjectRootKey := "LATTIS_PROJECT_ROOT"
  const DataDirName := ".binsmith"
  const WorkspaceFlag := "--workspace"
  const WorkspaceFlagWithValue := "--workspace="

  /** `os.environ.get(key)`. */
  function Lookup(env: Env, key: string): Option<string> {
    if key in env then Some(env[key]) else None
  }

  /** `os.environ.setdefault(key, value)`: `key` ends up bound, to its old
      value when it had one, and no other binding changes. */
  function SetDefault(env: Env, key: string, value: string): (r: Env)
    ensures r.Keys == env.Keys + {key}
    ensures r[key] == (if key in env then env[key] else value)
    ensures forall k :: k in env && k != key ==> r[k] == env[k]
  {
    if key in env then env else env[key := value]
  }

  // ---------------------------------------------------------------------
  // Mode normalisation
  // ---------------------------------------------------------------------

  /** `_normalize_workspace_mode`: absent and blank values are absent, and
      only the recognised words (after trimming and lower-casing) name a
      mode. */
  function NormalizeWorkspaceMode(value: Option<string>): (r: Option<Mode>)
    ensures value.None? ==> r.None?
    ensures value.Some? && AllSpace(value.value) ==> r.None?
  {
    match value
    case None => None
    case Some(v) => Classify(Lower(Strip(v)))
  }

  /** The mode a trimmed, lower-cased word names, if any: `central` names
      `Central`, the three words `local`, `project` and `cwd` name `Local`,
      and every other word (the empty one included) names nothing. */
  function Classify(w: string): (r: Option<Mode>)
    ensures r == Some(Central) <==> w == "central"
    ensures r.None? <==> w !in {"central", "local", "project", "cwd"}
  {
    if w == [] then None
    else if w == "central" then Some(Central)
    else if w == "local" || w == "project" || w == "cwd" then Some(Local)
    else None
  }

  /** `s` is `word`, in any mix of upper and lower case, surrounded by any
      amount of whitespace. */
  ghost predicate Spells(s: string, word: string) {
    exists x :: PaddedBy(s, x) && CaseVariant(x, word)
  }

  ghost predicate SpellsCentral(s: string) {
    Spells(s, "central")
  }

  ghost predicate SpellsLocal(s: string) {
    Spells(s, "local") || Spells(s, "project") || Spells(s, "cwd")
  }

  /** Trimming and lower-casing `s` yields `word` exactly when `s` spells
      `word`. */
  lemma StripLowerIs(s: string, word: string)
    requires IsLowerWord(word) && word != []
    ensures Lower(Strip(s)) == word <==> Spells(s, word)
  {
    LowerIsIff(Strip(s), word);
    if Spells(s, word) {
      var x :| PaddedBy(s, x) && CaseVariant(x, word);
      SpelledWordHasNoOuterSpace(x, word);
      StripUnique(s, x);
    }
  }

  lemma SpelledWordHasNoOuterSpace(x: string, word: string)
    requires IsLowerWord(word) && word != [] && CaseVariant(x, word)
    ensures NoOuterSpace(x)
  {
    assert 'a' <= word[0] <= 'z' && 'a' <= word[|word| - 1] <= 'z';
  }

  /** A value normalises to `central` exactly when it spells "central". */
  lemma NormalizeCentralIff(s: string)
    ensures NormalizeWorkspaceMode(Some(s)) == Some(Central) <==> SpellsCentral(s)
  {
    StripLowerIs(s, "central");
  }

  // Kept apart so that larger proofs do not unfold these literals themselves.
  lemma RecognisedWordsAreLower()
    ensures IsLowerWord("central") && IsLowerWord("local") && IsLowerWord("project") && IsLowerWord("cwd")
  {
  }

  /** The three words that name `Local`, and only those. */
  lemma ClassifyLocal(w: string)
    ensures Classify(w) == Some(Local) <==> w == "local" || w == "project" || w == "cwd"
  {
  }

  /** A value normalises to `local` exactly when it spells one of "local",
      "project" or "cwd". */
  lemma NormalizeLocalIff(s: string)
    ensures NormalizeWorkspaceMode(Some(s)) == Some(Local) <==> SpellsLocal(s)
  {
    RecognisedWordsAreLower();
    var w := Lower(Strip(s));
    assert NormalizeWorkspaceMode(Some(s)) == Some(Local) <==> w == "local" || w == "project" || w == "cwd" by {
      ClassifyLocal(w);
    }
    assert w == "local" <==> Spells(s, "local") by { StripLowerIs(s, "local"); }
    assert w == "project" <==> Spells(s, "project") by { StripLowerIs(s, "project"); }
    assert w == "cwd" <==> Spells(s, "cwd") by { StripLowerIs(s, "cwd"); }
  }

  /** Every other value, whatever its content, is treated as absent. */
  lemma NormalizeUnrecognised(s: string)
    ensures NormalizeWorkspaceMode(Some(s)).None? <==> !SpellsCentral(s) && !SpellsLocal(s)
  {
    NormalizeCentralIff(s);
    NormalizeLocalIff(s);
  }

  /** Normalising the name of a normalised mode gives the same mode back. */
  lemma NormalizeIdempotent(value: Option<string>)
    ensures var r := NormalizeWorkspaceMode(value);
            r.Some? ==> NormalizeWorkspaceMode(Some(r.value.Name())) == r
  {
    var r := NormalizeWorkspaceMode(value);
    if r.Some? {
      NormalizeName(r.value);
    }
  }

  lemma NormalizeName(m: Mode)
    ensures NormalizeWorkspaceMode(Some(m.Name())) == Some(m)
  {
    match m
    case Central => NormalizeWord("central");
    case Local => NormalizeWord("local");
  }

  /** A lower-case word is its own trimmed, lower-cased form. */
  lemma NormalizeWord(w: string)
    requires IsLowerWord(w) && w != []
    ensures NormalizeWorkspaceMode(Some(w)) == Classify(w)
  {
    assert w[0..|w|] == w && AllSpace(w[..0]) && AllSpace(w[|w|..]);
    StripUnique(w, w);
    LowerIsIff(w, w);
  }

  // ---------------------------------------------------------------------
  // Flag extraction
  // ---------------------------------------------------------------------

  /** Position `i` of `argv` carries a workspace value: either the joined
      form `--workspace=<v>`, or a bare `--workspace` that has a next token. */
  predicate IsFlagAt(argv: seq<string>, i: nat)
    requires i < |argv|
  {
    StartsWith(argv[i], WorkspaceFlagWithValue) || (argv[i] == WorkspaceFlag && i + 1 < |argv|)
  }

  /** The value a flag at position `i` carries: the rest of the joined token,
      or the next token verbatim. */
  function FlagValue(argv: seq<string>, i: nat): string
    requires i < |argv| && IsFlagAt(argv, i)
  {
    if StartsWith(argv[i], WorkspaceFlagWithValue) then argv[i][|WorkspaceFlagWithValue|..] else argv[i + 1]
  }

  /** The first flag at or after `idx`, in a left-to-right scan. */
  function ExtractFrom(argv: seq<string>, idx: nat): (r: Option<string>)
    requires idx <= |argv|
    ensures r.None? <==> forall j :: idx <= j < |argv| ==> !IsFlagAt(argv, j)
    ensures r.Some? ==> exists i :: idx <= i < |argv| && IsFlagAt(argv, i) && r.value == FlagValue(argv, i)
                                 && forall j :: idx <= j < i ==> !IsFlagAt(argv, j)
    decreases |argv| - idx
  {
    if idx == |argv| then None
    else if StartsWith(argv[idx], WorkspaceFlagWithValue) then
      assert IsFlagAt(argv, idx);
      AfterFirstOfPrefix(argv[idx], WorkspaceFlagWithValue, '=');
      Some(AfterFirst(argv[idx], '='))
    else if argv[idx] == WorkspaceFlag && idx + 1 < |argv| then
      assert IsFlagAt(argv, idx);
      Some(argv[idx + 1])
    else ExtractFrom(argv, idx + 1)
  }

  /** `_extract_workspace_mode`: the value of the first workspace flag in
      `argv`, or nothing when no position carries one. */
  function ExtractWorkspaceMode(argv: seq<string>): (r: Option<string>)
    ensures r.None? <==> forall j :: 0 <= j < |argv| ==> !IsFlagAt(argv, j)
    ensures r.Some? ==> exists i :: 0 <= i < |argv| && IsFlagAt(argv, i) && r.value == FlagValue(argv, i)
                                 && forall j :: 0 <= j < i ==> !IsFlagAt(argv, j)
  {
    ExtractFrom(argv, 0)
  }

  lemma {:induction false} ExtractFromAppend(argv: seq<string>, more: seq<string>, idx: nat)
    requires idx <= |argv|
    requires ExtractFrom(argv, idx).Some?
    ensures ExtractFrom(argv + more, idx) == ExtractFrom(argv, idx)
    decreases |argv| - idx
  {
    var all := argv + more;
    assert all[idx] == argv[idx];
    if StartsWith(argv[idx], WorkspaceFlagWithValue) {
    } else if argv[idx] == WorkspaceFlag && idx + 1 < |argv| {
      assert all[idx + 1] == argv[idx + 1];
    } else {
      assert ExtractFrom(argv, idx) == ExtractFrom(argv, idx + 1);
      assert idx + 1 < |argv|;
      assert ExtractFrom(all, idx) == ExtractFrom(all, idx + 1);
      ExtractFromAppend(argv, more, idx + 1);
    }
  }

  /** Once a flag has been found, whatever follows it is never consulted:
      appending arguments does not change the extracted value. */
  lemma ExtractStableUnderAppend(argv: seq<string>, more: seq<string>)
    requires ExtractWorkspaceMode(argv).Some?
    ensures ExtractWorkspaceMode(argv + more) == ExtractWorkspaceMode(argv)
  {
    ExtractFromAppend(argv, more, 0);
  }

  // ---------------------------------------------------------------------
  // Mode resolution and the data directory
  // ---------------------------------------------------------------------

  /** `env_mode or arg_mode or "local"`: the environment mode when it is
      recognised, else the argument mode when it is, else `local`. */
  function ResolveMode(envMode: Option<Mode>, argMode: Option<Mode>): (r: Mode)
    ensures envMode.Some? ==> r == envMode.value
    ensures envMode.None? && argMode.Some? ==> r == argMode.value
    ensures envMode.None? && argMode.None? ==> r == Local
  {
    match envMode
    case Some(m) => m
    case None =>
      match argMode
      case Some(m) => m
      case None => Local
  }

  /** The mode the shim settles on for `env` and the scanned arguments. */
  function SelectedMode(env: Env, argv: seq<string>): Mode {
    ResolveMode(NormalizeWorkspaceMode(Lookup(env, WorkspaceModeKey)),
                NormalizeWorkspaceMode(ExtractWorkspaceMode(argv)))
  }

  /** The mode is `central` exactly when the environment spells it, or when
      the environment names no recognised mode and the first workspace flag
      in `argv` spells it. */
  lemma SelectedCentralIff(env: Env, argv: seq<string>)
    ensures SelectedMode(env, argv) == Central <==>
      || (WorkspaceModeKey in env && SpellsCentral(env[WorkspaceModeKey]))
      || (&& (WorkspaceModeKey in env ==> !SpellsCentral(env[WorkspaceModeKey]) && !SpellsLocal(env[WorkspaceModeKey]))
          && ExtractWorkspaceMode(argv).Some?
          && SpellsCentral(ExtractWorkspaceMode(argv).value))
  {
    if WorkspaceModeKey in env {
      NormalizeUnrecognised(env[WorkspaceModeKey]);
      NormalizeCentralIff(env[WorkspaceModeKey]);
    }
    if ExtractWorkspaceMode(argv).Some? {
      NormalizeCentralIff(ExtractWorkspaceMode(argv).value);
    }
  }

  /** A recognised environment mode decides the outcome whatever the
      arguments say. */
  lemma EnvironmentModeWins(env: Env, argv: seq<string>, other: seq<string>)
    requires NormalizeWorkspaceMode(Lookup(env, WorkspaceModeKey)).Some?
    ensures SelectedMode(env, argv) == NormalizeWorkspaceMode(Lookup(env, WorkspaceModeKey)).value
    ensures SelectedMode(env, argv) == SelectedMode(env, other)
  {
  }

  /** An unrecognised environment mode behaves exactly like an absent one. */
  lemma UnrecognisedEnvModeIsAbsent(env: Env, argv: seq<string>)
    requires WorkspaceModeKey in env
    requires !SpellsCentral(env[WorkspaceModeKey]) && !SpellsLocal(env[WorkspaceModeKey])
    ensures SelectedMode(env, argv) == SelectedMode(env - {WorkspaceModeKey}, argv)
  {
    NormalizeUnrecognised(env[WorkspaceModeKey]);
  }

  /** An unrecognised first flag value behaves exactly like no flag at all;
      later flags are not consulted. */
  lemma UnrecognisedArgModeIsAbsent(env: Env, argv: seq<string>)
    requires ExtractWorkspaceMode(argv).Some?
    requires !SpellsCentral(ExtractWorkspaceMode(argv).value) && !SpellsLocal(ExtractWorkspaceMode(argv).value)
    ensures SelectedMode(env, argv) == SelectedMode(env, [])
  {
    NormalizeUnrecognised(ExtractWorkspaceMode(argv).value);
  }

  /** `_default_data_dir`: splitting the result at its last `/` gives a
      directory named `.binsmith` inside the home directory for `central`,
      inside the project root for `local` with a non-empty root, and a bare
      relative `.binsmith` otherwise. */
  function DefaultDataDir(mode: Mode, home: string, projectRoot: Option<string>): (r: string)
    ensures SplitLast(r) ==
      if mode == Central then (Some(home), DataDirName)
      else if projectRoot.Some? && projectRoot.value != "" then (Some(projectRoot.value), DataDirName)
      else (None, DataDirName)
  {
    if mode == Central then
      SplitLastJoin(home, DataDirName);
      Join(home, DataDirName)
    else if projectRoot.Some? && projectRoot.value != "" then
      SplitLastJoin(projectRoot.value, DataDirName);
      Join(projectRoot.value, DataDirName)
    else
      SplitLastNoSlash(DataDirName);
      DataDirName
  }

  // The two branches of `DefaultDataDir` as separate facts, so callers with
  // literal arguments need not unfold its contract.
  lemma CentralDataDir(home: string, projectRoot: Option<string>)
    ensures DefaultDataDir(Central, home, projectRoot) == Join(home, DataDirName)
  {
  }

  lemma LocalDataDir(home: string, projectRoot: Option<string>)
    ensures DefaultDataDir(Local, home, projectRoot)
         == if projectRoot.Some? && projectRoot.value != "" then Join(projectRoot.value, DataDirName) else DataDirName
  {
  }

  // ---------------------------------------------------------------------
  // The environment update performed by `main`
  // ---------------------------------------------------------------------

  /** What `main` hands to the delegate: the updated environment and the
      argument list it forwards. */
  datatype Handoff = Handoff(env: Env, delegateArgv: Option<seq<string>>)

  /** `argv or ()`. */
  function ArgsOrEmpty(argv: Option<seq<string>>): seq<string> {
    match argv
    case None => []
    case Some(a) => a
  }

  /** Lines 44-48 of `main`: an explicit `LATTIS_DATA_DIR`, even an empty
      one, is kept; otherwise it is bound to the directory derived from the
      selected mode; no other binding changes. */
  function ResolveDataDir(env: Env, argv: seq<string>, home: string): (r: Env)
    ensures r.Keys == env.Keys + {DataDirKey}
    ensures DataDirKey in env ==> r[DataDirKey] == env[DataDirKey]
    ensures DataDirKey !in env ==>
      r[DataDirKey] == DefaultDataDir(SelectedMode(env, argv), home, Lookup(env, ProjectRootKey))
    ensures forall k :: k in env && k != DataDirKey ==> r[k] == env[k]
  {
    if DataDirKey in env then env
    else env[DataDirKey := DefaultDataDir(SelectedMode(env, argv), home, Lookup(env, ProjectRootKey))]
  }

  /** `main` up to the delegate call. `AGENT_DEFAULT` is set when absent;
      `LATTIS_DATA_DIR` is resolved as above; nothing else changes, and the
      arguments are forwarded as given. */
  function Main(env: Env, argv: Option<seq<string>>, home: string): (r: Handoff)
    ensures r.delegateArgv == argv
    ensures r.env.Keys == env.Keys + {AgentDefaultKey, DataDirKey}
    ensures r.env[AgentDefaultKey] == (if AgentDefaultKey in env then env[AgentDefaultKey] else AgentDefaultValue)
    ensures DataDirKey in env ==> r.env[DataDirKey] == env[DataDirKey]
    ensures DataDirKey !in env ==>
      r.env[DataDirKey] == DefaultDataDir(SelectedMode(env, ArgsOrEmpty(argv)), home, Lookup(env, ProjectRootKey))
    ensures forall k :: k in env && k != AgentDefaultKey && k != DataDirKey ==> r.env[k] == env[k]
  {
    var args := ArgsOrEmpty(argv);
    MainKeys(env, args, home);
    MainDataDir(env, args, home);
    MainOthers(env, args, home);
    Handoff(ResolveDataDir(SetDefault(env, AgentDefaultKey, AgentDefaultValue), args, home), argv)
  }

  // `Main`'s contract split in three, each proved on its own to keep every
  // proof obligation small.
  lemma MainKeys(env: Env, argv: seq<string>, home: string)
    ensures var r := ResolveDataDir(SetDefault(env, AgentDefaultKey, AgentDefaultValue), argv, home);
            && r.Keys == env.Keys + {AgentDefaultKey, DataDirKey}
            && r[AgentDefaultKey] == (if AgentDefaultKey in env then env[AgentDefaultKey] else AgentDefaultValue)
  {
    DistinctKeys();
  }

  lemma MainDataDir(env: Env, argv: seq<string>, home: string)
    ensures var r := ResolveDataDir(SetDefault(env, AgentDefaultKey, AgentDefaultValue), argv, home);
            && (DataDirKey in env ==> r[DataDirKey] == env[DataDirKey])
            && (DataDirKey !in env ==>
                  r[DataDirKey] == DefaultDataDir(SelectedMode(env, argv), home, Lookup(env, ProjectRootKey)))
  {
    SetDefaultKeepsOtherLookups(env, argv);
  }

  lemma MainOthers(env: Env, argv: seq<string>, home: string)
    ensures var r := ResolveDataDir(SetDefault(env, AgentDefaultKey, AgentDefaultValue), argv, home);
            forall k :: k in env && k != AgentDefaultKey && k != DataDirKey ==> r[k] == env[k]
  {
  }

  /** Binding `AGENT_DEFAULT` first does not change what the resolution
      reads. */
  lemma SetDefaultKeepsOtherLookups(env: Env, argv: seq<string>)
    ensures var withAgent := SetDefault(env, AgentDefaultKey, AgentDefaultValue);
            && (DataDirKey in withAgent <==> DataDirKey in env)
            && Lookup(withAgent, WorkspaceModeKey) == Lookup(env, WorkspaceModeKey)
            && Lookup(withAgent, ProjectRootKey) == Lookup(env, ProjectRootKey)
            && SelectedMode(withAgent, argv) == SelectedMode(env, argv)
  {
    DistinctKeys();
  }

  lemma DistinctKeys()
    ensures AgentDefaultKey != DataDirKey && AgentDefaultKey != WorkspaceModeKey && AgentDefaultKey != ProjectRootKey
    ensures DataDirKey != WorkspaceModeKey && DataDirKey != ProjectRootKey && WorkspaceModeKey != ProjectRootKey
  {
    assert |AgentDefaultKey| == 13 && |DataDirKey| == 15 && |ProjectRootKey| == 19 && |WorkspaceModeKey| == 21;
  }

  /** With a data directory already set, the outcome depends on neither the
      arguments nor the home directory: no path is derived. */
  lemma ExplicitDataDirUntouched(env: Env, argv: Option<seq<string>>, home: string)
    requires DataDirKey in env
    ensures Main(env, argv, home).env == SetDefault(env, AgentDefaultKey, AgentDefaultValue)
  {
  }

  /** Without an argument list the scan sees no arguments: the outcome is
      that of an empty list, though the delegate still receives none. */
  lemma NoArgvScansNothing(env: Env, home: string)
    ensures Main(env, None, home).env == Main(env, Some([]), home).env
    ensures Main(env, None, home).delegateArgv == None
  {
  }

  /** Running the shim again, with any arguments and home directory,
      changes nothing further. */
  lemma MainIdempotent(env: Env, argv: Option<seq<string>>, home: string, argv': Option<seq<string>>, home': string)
    ensures var once := Main(env, argv, home).env;
            Main(once, argv', home').env == once
  {
    var once := Main(env, argv, home).env;
    assert DataDirKey in once && AgentDefaultKey in once;
    ExplicitDataDirUntouched(once, argv', home');
  }
}
