/**
 Concrete runs of the shim, worked through the model: the documented
 examples, and the edge cases of flag scanning.
 */
module Scenarios {
  import opened Options
  import opened Text
  import opened Cli

  const Home := "/home/u"

  /** `--workspace=central` with an empty environment puts the data under
      the home directory. */
  lemma JoinedCentralFlag()
    ensures Main(map[], Some(["run", "--workspace=central"]), Home).env[DataDirKey] == "/home/u/.binsmith"
  {
    var env: Env := map[];
    JoinedCentralMode();
    CentralDataDir(Home, Lookup(env, ProjectRootKey));
    HomeDataDir();
  }

  lemma JoinedCentralMode()
    ensures SelectedMode(map[], ["run", "--workspace=central"]) == Central
  {
    var argv := ["run", "--workspace=central"];
    assert !IsFlagAt(argv, 0) && IsFlagAt(argv, 1);
    assert FlagValue(argv, 1) == "central";
    RecognisedWordsAreLower();
    NormalizeWord("central");
  }

  /** `--workspace local` with a project root puts the data in the project. */
  lemma SeparateLocalFlag(root: string)
    requires root != ""
    ensures Main(map[ProjectRootKey := root], Some(["run", "--workspace", "local"]), Home).env[DataDirKey]
         == root + "/.binsmith"
  {
    var env := map[ProjectRootKey := root];
    var argv := ["run", "--workspace", "local"];
    DistinctKeys();
    assert DataDirKey !in env;
    SeparateLocalMode(env);
    assert Lookup(env, ProjectRootKey) == Some(root);
    LocalDataDir(Home, Some(root));
    JoinDataDirName(root);
    var r := Main(env, Some(argv), Home);
    assert r.env[DataDirKey] == DefaultDataDir(SelectedMode(env, argv), Home, Lookup(env, ProjectRootKey));
  }

  // A literal fact kept apart so that the scenario proofs do not unfold it.
  lemma JoinDataDirName(dir: string)
    ensures Join(dir, DataDirName) == dir + "/.binsmith"
  {
  }

  lemma SeparateLocalMode(env: Env)
    requires WorkspaceModeKey !in env
    ensures SelectedMode(env, ["run", "--workspace", "local"]) == Local
  {
    var argv := ["run", "--workspace", "local"];
    assert !IsFlagAt(argv, 0) && IsFlagAt(argv, 1);
    assert FlagValue(argv, 1) == "local";
    RecognisedWordsAreLower();
    NormalizeWord("local");
  }

  /** An explicit data directory survives untouched. */
  lemma ExplicitDataDirKept()
    ensures Main(map[DataDirKey := "/custom/path"], Some([]), Home).env[DataDirKey] == "/custom/path"
  {
  }

  /** The first flag carries an unrecognised word; the later `central` is
      never consulted and the default `local` applies. */
  lemma FirstFlagShadowsLater()
    ensures Main(map[], Some(["--workspace=production", "--workspace=central"]), Home).env[DataDirKey]
         == ".binsmith"
  {
    var env: Env := map[];
    ShadowedMode();
    LocalDataDir(Home, Lookup(env, ProjectRootKey));
  }

  lemma ShadowedMode()
    ensures SelectedMode(map[], ["--workspace=production", "--workspace=central"]) == Local
  {
    var argv := ["--workspace=production", "--workspace=central"];
    assert IsFlagAt(argv, 0);
    assert ExtractWorkspaceMode(argv) == Some("production");
    ProductionUnrecognised();
    UnrecognisedArgModeIsAbsent(map[], argv);
  }

  lemma ProductionUnrecognised()
    ensures !SpellsCentral("production") && !SpellsLocal("production")
  {
    ProductionNormalizesToNothing();
    NormalizeUnrecognised("production");
  }

  lemma ProductionNormalizesToNothing()
    ensures NormalizeWorkspaceMode(Some("production")) == None
  {
    ProductionIsLower();
    NormalizeWord("production");
    ProductionClassify();
  }

  // A literal fact kept apart so that the scenario proofs do not unfold it.
  lemma ProductionClassify()
    ensures Classify("production") == None
  {
  }

  /** A bare `--workspace` as the last token carries no value. */
  lemma TrailingBareFlag()
    ensures ExtractWorkspaceMode(["run", "--workspace"]) == None
  {
    var argv := ["run", "--workspace"];
    assert !IsFlagAt(argv, 0) && !IsFlagAt(argv, 1);
  }

  /** The environment mode, in any case and with padding, beats the flag. */
  lemma EnvironmentBeatsFlag()
    ensures Main(map[WorkspaceModeKey := " Central\n"], Some(["--workspace=local"]), Home).env[DataDirKey]
         == "/home/u/.binsmith"
  {
    var env := map[WorkspaceModeKey := " Central\n"];
    PaddedCentralMode();
    CentralDataDir(Home, Lookup(env, ProjectRootKey));
    HomeDataDir();
  }

  lemma PaddedCentralMode()
    ensures SelectedMode(map[WorkspaceModeKey := " Central\n"], ["--workspace=local"]) == Central
  {
    var v := " Central\n";
    PaddedCentralSpells();
    NormalizeCentralIff(v);
    assert Lookup(map[WorkspaceModeKey := v], WorkspaceModeKey) == Some(v);
  }

  lemma PaddedCentralSpells()
    ensures SpellsCentral(" Central\n")
  {
    var v := " Central\n";
    assert v[1..8] == "Central" && AllSpace(v[..1]) && AllSpace(v[8..]);
    assert PaddedBy(v, "Central");
    CapitalisedCentral();
  }

  // A literal fact kept apart so that the scenario proofs do not unfold it.
  lemma CapitalisedCentral()
    ensures CaseVariant("Central", "central")
  {
  }

  // A literal fact kept apart so that the scenario proofs do not unfold it.
  lemma HomeDataDir()
    ensures Join(Home, DataDirName) == "/home/u/.binsmith"
  {
  }

  // A literal fact kept apart so that the scenario proofs do not unfold it.
  lemma ProductionIsLower()
    ensures IsLowerWord("production")
  {
  }
}
