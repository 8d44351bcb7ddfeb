# binsmith workspace resolution, modelled in Dafny

binsmith's command-line entry point is a shim in front of the lattis command
line. Before it hands over, it picks the directory where lattis keeps its
data and records the choice in the process environment:

- it sets `AGENT_DEFAULT` to `binsmith` unless that variable is already set;
- if `LATTIS_DATA_DIR` is already present (even with an empty value), it
  changes nothing else;
- otherwise it reads a workspace mode from `LATTIS_WORKSPACE_MODE`, or failing
  that from the first `--workspace=<v>` / `--workspace <v>` flag among the
  arguments, or else uses `local`. A value names a mode after it has been
  trimmed and lower-cased: `central`, or one of `local`, `project` and `cwd`
  for `local`. Any other value counts as absent;
- `central` puts the data in `<home>/.binsmith`. `local` puts it in
  `<LATTIS_PROJECT_ROOT>/.binsmith` when that variable is set and non-empty,
  and in the relative `.binsmith` otherwise;
- it forwards the arguments to lattis unchanged.

The model has four modules:

- `Options` (`options.dfy`): an `Option` type for Python's `str | None`.
- `Text` (`text.dfy`): the string operations the shim uses. These are
  `str.strip()` over Python's exact whitespace set, ASCII lower-casing,
  `startswith`, `split(sep, 1)[1]`, and joining a path. Each comes with a
  characterisation that does not depend on how it is computed. `Strip` is
  paired with `StripUnique`. `Lower` is paired with `LowerIsIff`. `AfterFirst`
  returns the suffix after a separator that has no earlier occurrence. `Join`
  is inverted by `SplitLast`.
- `Cli` (`cli.dfy`): the shim itself. It covers mode normalisation, the
  argument scan, the precedence between sources, the data directory, and the
  environment update performed by `main`. The process environment is an
  immutable `map<string, string>` in and out. The home directory is a
  parameter. The delegate call appears as the argument list it would
  receive (`Handoff.delegateArgv`).
- `Scenarios` (`scenarios.dfy`): concrete runs worked through the model. They
  cover the documented examples and the edge cases of the argument scan.

Two behaviours of the code are kept exactly as written. First, when `main` is
called with `argv` set to `None`, the argument scan sees an empty list, while
lattis receives `None`, which presumably makes it read the process's own
arguments. A `--workspace` flag on the real command line is therefore seen
only when the caller passes `argv` explicitly. `Main` models this through
`ArgsOrEmpty`. Second, the environment is read after `AGENT_DEFAULT` has been
set, as at `binsmith/cli.py:42-48`. Because the keys differ, this makes no
difference, and `Main`'s contract is stated in terms of the original
environment.

## Model

| member | source | states |
|---|---|---|
| Text.TrimStart | binsmith/cli.py:13 | The result is a suffix of the input. Everything removed before it is whitespace. It does not itself start with whitespace. |
| Text.TrimEnd | binsmith/cli.py:13 | The result is a prefix of the input. Everything removed after it is whitespace. It does not itself end with whitespace. |
| Text.Strip | binsmith/cli.py:13 | `strip()` returns a string with no whitespace at either end, and the input is that string padded on both sides with Python whitespace. |
| Text.StripUnique | binsmith/cli.py:13 | Any split of the input into whitespace, a core without outer whitespace, and whitespace yields exactly `strip()`'s result, so `strip()` is fully determined. |
| Text.StripIdempotent | binsmith/cli.py:13 | Stripping an already stripped string changes nothing. |
| Text.Lower | binsmith/cli.py:13 | Lower-casing keeps the length and lower-cases each character on its own. |
| Text.LowerIsIff | binsmith/cli.py:13 | A string lower-cases to a lower-case word exactly when it is that word with some letters capitalised. |
| Text.AfterFirst | binsmith/cli.py:26 | `split("=", 1)[1]` is the suffix that follows an `=` with no `=` before it. |
| Text.StartsWith | binsmith/cli.py:25 | `str.startswith`: the token is at least as long as the prefix and its first characters are the prefix. Defined directly; it is used by `AfterFirstOfPrefix` and `ExtractFrom`. |
| Text.AfterFirstOfPrefix | binsmith/cli.py:25-26 | For a token starting with `--workspace=`, the text after the first `=` is everything after that prefix, including any further `=` and possibly nothing. |
| Text.SplitLast | binsmith/cli.py:34-37 | Splitting a path at its last `/` gives a final component without `/`. When a directory part exists, joining the two rebuilds the path; otherwise the component is the whole path. |
| Text.Join | binsmith/cli.py:34-37 | `Path(dir) / name` for a POSIX directory in pathlib's normal form. Defined directly; its inverse `SplitLast` and the round trip `SplitLastJoin` state what it produces. |
| Text.SplitLastJoin | binsmith/cli.py:34-37 | Joining a directory and a name without `/` can be split back into exactly that directory and name. |
| Text.SplitLastNoSlash | binsmith/cli.py:38 | A path without `/` (the relative `.binsmith`) has no directory part. |
| Cli.SetDefault | binsmith/cli.py:42 | `setdefault` leaves the key bound to its old value if it had one and to the default otherwise; no other key changes and none is removed. |
| Cli.Lookup | binsmith/cli.py:35 | `os.environ.get`: the bound value when the key is present, nothing otherwise. Defined directly. |
| Cli.NormalizeWorkspaceMode | binsmith/cli.py:10-15 | An absent value and a blank (whitespace-only or empty) value both normalise to no mode. |
| Cli.Classify | binsmith/cli.py:14-20 | A trimmed, lower-cased word names `central` exactly when it is `central`, and names nothing exactly when it is none of `central`, `local`, `project` and `cwd` (the empty word included). |
| Cli.ClassifyLocal | binsmith/cli.py:18-19 | A trimmed, lower-cased word names `local` exactly when it is `local`, `project` or `cwd`. |
| Cli.StripLowerIs | binsmith/cli.py:13-19 | Trimming and lower-casing yields a recognised word exactly when the input spells that word in any case with any surrounding whitespace. |
| Cli.NormalizeCentralIff | binsmith/cli.py:13-17 | A value normalises to `central` if and only if it spells "central", ignoring case and surrounding whitespace. |
| Cli.NormalizeLocalIff | binsmith/cli.py:13-19 | A value normalises to `local` if and only if it spells "local", "project" or "cwd", ignoring case and surrounding whitespace. |
| Cli.NormalizeUnrecognised | binsmith/cli.py:14-20 | Every value that spells none of the four words normalises to no mode, and only those do. |
| Cli.NormalizeWord | binsmith/cli.py:13-20 | A lower-case word is classified as it stands, because trimming and lower-casing leave it unchanged. |
| Cli.NormalizeName | binsmith/cli.py:16-19 | The names `"central"` and `"local"` that normalisation returns normalise back to the same mode. |
| Cli.NormalizeIdempotent | binsmith/cli.py:10-20 | Normalising the name of any normalisation result returns that same result (idempotence). |
| Cli.ExtractFrom | binsmith/cli.py:24-29 | Scanning from a position returns nothing exactly when no later position carries a flag. Otherwise it returns the value of the first flag position in left-to-right order. |
| Cli.IsFlagAt | binsmith/cli.py:25-27 | A position carries a workspace value when its token starts with `--workspace=`, or is exactly `--workspace` and has a next token. Defined directly; `ExtractFrom` states the scan in its terms. |
| Cli.FlagValue | binsmith/cli.py:26-28 | The value of a flag position: the rest of a `--workspace=` token, or the next token verbatim. Defined directly; `AfterFirstOfPrefix` shows it equals `split("=", 1)[1]`. |
| Cli.ExtractWorkspaceMode | binsmith/cli.py:23-29 | Returns the value of the first `--workspace=<v>` token, or of the first bare `--workspace` that has a next token; returns nothing when there is neither. A trailing bare flag carries no value. |
| Cli.ExtractFromAppend | binsmith/cli.py:24-28 | Once the scan from a position has found a flag, appending arguments does not change what it returns. |
| Cli.ExtractStableUnderAppend | binsmith/cli.py:24-28 | Arguments after the first flag are never consulted: appending arguments keeps the extracted value. |
| Cli.ResolveMode | binsmith/cli.py:47 | A recognised environment mode wins. Otherwise a recognised argument mode wins. Otherwise the mode is `local`. |
| Cli.SelectedMode | binsmith/cli.py:45-47 | The mode chosen from the environment and the scanned arguments. Defined directly; `SelectedCentralIff`, `EnvironmentModeWins`, `UnrecognisedEnvModeIsAbsent` and `UnrecognisedArgModeIsAbsent` state its behaviour over the raw inputs. |
| Cli.SelectedCentralIff | binsmith/cli.py:45-47 | The mode is `central` exactly when the environment variable spells "central", or when it is absent or unrecognised and the first flag's value spells "central". |
| Cli.EnvironmentModeWins | binsmith/cli.py:45-47 | A recognised environment mode is the selected mode, whatever the arguments are. |
| Cli.UnrecognisedEnvModeIsAbsent | binsmith/cli.py:45-47 | An unrecognised `LATTIS_WORKSPACE_MODE` gives the same mode as removing the variable. |
| Cli.UnrecognisedArgModeIsAbsent | binsmith/cli.py:46-47 | An unrecognised first flag value gives the same mode as no arguments at all, even when later flags name a valid mode. |
| Cli.DefaultDataDir | binsmith/cli.py:32-38 | The data directory is always named `.binsmith`. It sits in the home directory for `central` and in the project root for `local` with a non-empty root, and it is the bare relative name otherwise. |
| Cli.ResolveDataDir | binsmith/cli.py:44-48 | An existing `LATTIS_DATA_DIR` is kept even when empty. A missing one is bound to the directory derived from the selected mode and the project root. Every other binding is kept and no key is removed. |
| Cli.ArgsOrEmpty | binsmith/cli.py:46 | `argv or ()`: an absent argument list is scanned as the empty one. Defined directly; `NoArgvScansNothing` states its effect on `main`. |
| Cli.SetDefaultKeepsOtherLookups | binsmith/cli.py:42-48 | Setting `AGENT_DEFAULT` first leaves the data-directory check, both variables the resolution reads, and the selected mode unchanged. |
| Cli.Main | binsmith/cli.py:41-50 | `main` binds exactly `AGENT_DEFAULT` and `LATTIS_DATA_DIR` in addition to the existing keys. It keeps existing values of both, sets the derived directory only when `LATTIS_DATA_DIR` is absent, leaves every other variable unchanged, and forwards the arguments unmodified. |
| Cli.ExplicitDataDirUntouched | binsmith/cli.py:42-48 | With `LATTIS_DATA_DIR` present, the only possible change is `AGENT_DEFAULT`, whatever the arguments and home directory. |
| Cli.NoArgvScansNothing | binsmith/cli.py:46-50 | Calling `main` without an argument list gives the same environment as calling it with an empty list, while the delegate still receives `None`. |
| Cli.MainIdempotent | binsmith/cli.py:42-48 | Running the shim again on its own output environment, with any arguments and home directory, changes nothing. |
| Scenarios.JoinedCentralFlag | binsmith/cli.py:41-48 | `run --workspace=central` with an empty environment and home `/home/u` yields `/home/u/.binsmith`. |
| Scenarios.SeparateLocalFlag | binsmith/cli.py:41-48 | `run --workspace local` with `LATTIS_PROJECT_ROOT=/proj` yields `/proj/.binsmith`. |
| Scenarios.ExplicitDataDirKept | binsmith/cli.py:44 | `LATTIS_DATA_DIR=/custom/path` stays `/custom/path`. |
| Scenarios.FirstFlagShadowsLater | binsmith/cli.py:23-48 | With `--workspace=production --workspace=central`, the later `central` is ignored and the result is the relative `.binsmith`. |
| Scenarios.TrailingBareFlag | binsmith/cli.py:27-29 | `run --workspace` carries no workspace value. |
| Scenarios.EnvironmentBeatsFlag | binsmith/cli.py:45-48 | `LATTIS_WORKSPACE_MODE=" Central\n"` overrides `--workspace=local`, giving `/home/u/.binsmith`. |

## Left out

- The call into `lattis.cli.main` (line 50): that library is not part of this model. Only the argument list it receives is modelled.
- Mutation of the real process environment and `Path.home()`: the environment is a map passed in and returned, and the home directory is a parameter.
- `pathlib` normalisation: paths are POSIX paths, and `Path(dir) / ".binsmith"` is modelled as `dir + "/.binsmith"`, which agrees with pathlib only for a directory already in its normal form. pathlib would drop a trailing `/` on `dir`, turn an empty home into the relative `.binsmith`, drop `.` components (`LATTIS_PROJECT_ROOT=.` gives `.binsmith`, `./proj` gives `proj/.binsmith`, where the model gives `./.binsmith` and `./proj/.binsmith`), and collapse repeated separators (`a//b` gives `a/b/.binsmith`). The project root is never empty when it is joined.
- Windows paths and separators: not modelled.
- Text.Lower: lower-cases ASCII letters only, where Python's `str.lower()` covers all of Unicode. The only non-ASCII characters that Python lower-cases into ASCII are the Kelvin sign (to `k`) and U+0130 (to `i` followed by a combining dot). Neither letter occurs in `central`, `local`, `project` or `cwd`, so every value is classified the same way.
- Python strings may hold lone surrogate code points, which Dafny's `char` excludes. Such a value can never spell a recognised word in either setting.
