# vcli `awsconf`: a Dafny model of the credential exporter

`vcli awsconf` assumes an AWS IAM role. It looks up the role's ARN and the
AWS profile under a tool profile in the settings file. It picks how to sign
in from the AWS profile's shared configuration: assume a role with MFA,
assume a role without MFA, or use the profile's own credentials. It then
calls STS `AssumeRole` and writes the temporary credentials as four
`export` lines into a shell dotfile (`~/.zshenv` by default).

The dotfile update, `modifyShellProfile`, is the heart of the command:

1. It splits the old file on `"\n"`.
2. It recognises each line by the first of the four prefixes the line
   contains (`export AWS_ACCESS_KEY_ID=`, `export AWS_SECRET_ACCESS_KEY=`,
   `export AWS_SESSION_TOKEN=`, `export AWS_REGION=`) and replaces that line
   with a fresh one.
3. If all four kinds were found, it truncates the file and writes the
   rewritten lines joined back with `"\n"`. If not, the rewritten lines are
   thrown away and the file is left as it was.
4. Either way it then appends one fresh line for each kind that was not
   found, in the fixed order access key, secret key, session token, region.

The project has four modules:

- `GoStrings` (`gostrings.dfy`) defines the Go string functions the code
  relies on: `strings.Split` and `strings.Join` on `"\n"`,
  `strings.Contains` and `strings.TrimSpace`, with a `HasPrefix` helper that
  `Contains` is defined by. It proves
  that Split and Join invert each other, how Split behaves on
  concatenations, and when TrimSpace yields the empty string.
- `Dotfile` (`dotfile.dfy`) is a pure specification of the reconciliation.
  It classifies lines, rewrites them, lists the missing kinds and the
  appended text, and defines `ReconcileContent`, the new file content as a
  function of the old. The lemmas about it cover:
  - first-match classification;
  - the full-rewrite and append-only paths;
  - the empty file;
  - idempotence and convergence;
  - the presence of every prefix after a run.

  Several of these hold only for clean values: no exported value holds a
  newline or the prefix of another kind (`CleanValues`). A value that did
  would split the fresh line or make it be recognised as another kind.
- `DotfileScenarios` (`scenarios.dfy`) works through two concrete files:
  - A file that holds a stale region line and no credentials keeps that
    stale region.
  - A file whose last line lacks its newline gets the first fresh line glued
    onto that last line.
- `Awsconf` (`awsconf.dfy`) is the imperative part. It has:
  - a `FileSystem` class, a map from path to content that the operations
    update in place;
  - `ModifyShellProfile`, which rewrites an `array` of lines in a loop and
    writes the result;
  - the strategy selection of `loadAwsConfig`;
  - the settings keys and the dotfile path;
  - the fail-fast flow of `assumeRole` and of the command handler.

  `ModifyShellProfile` is proved to leave exactly
  `ReconcileContent(old content)` at the dotfile path and to change no
  other file.

Calls into the AWS SDK, the home directory lookup and the random session
name are modelled as values passed in. The `Environment` datatype carries
the outcome of each SDK stage (shared config, default config, STS call,
home directory), and `sessionId` stands for the nanoid. The settings
document is `Option<map<string, string>>`, with `None` standing for a file
that could not be read.

## Model

| member | source | states |
|---|---|---|
| `GoStrings.Split` | cmd/awsconf.go:179 | `strings.Split` on `"\n"` always yields at least one piece, and no piece contains a newline |
| `GoStrings.Join` | cmd/awsconf.go:207 | `strings.Join(lines, "\n")`: the lines with one newline between neighbours; `JoinSplit` and `SplitJoin` prove it is the inverse of `Split` |
| `GoStrings.JoinSplit` | cmd/awsconf.go:179 | joining the pieces of a split with `"\n"` gives back the original string, for every string |
| `GoStrings.SplitJoin` | cmd/awsconf.go:207 | splitting the join of a non-empty list of newline-free lines gives back that list |
| `GoStrings.SplitAppend` | cmd/awsconf.go:179 | the lines of `a + b` are those of `a` and those of `b`, with `a`'s last line fused to `b`'s first |
| `GoStrings.SplitAfterNewline` | cmd/awsconf.go:211-224 | appending to a file that is empty or ends in a newline adds the appended lines after the old ones and keeps the old ones intact |
| `GoStrings.JoinContains` | cmd/awsconf.go:207 | a substring of one line is a substring of the joined text |
| `GoStrings.Contains` | cmd/awsconf.go:187-196 | `strings.Contains`: some suffix starts with the substring; `ContainsIffOccurs` proves it equal to "occurs at some position" |
| `GoStrings.ContainsIffOccurs` | cmd/awsconf.go:187 | `strings.Contains` holds exactly when the substring occurs at some position |
| `GoStrings.TrimLeftSpace` | cmd/awsconf.go:139 | the result is a suffix of the input that does not start with white space, and everything removed is white space |
| `GoStrings.TrimRightSpace` | cmd/awsconf.go:139 | the result is a prefix of the input that does not end in white space, and everything removed is white space |
| `GoStrings.TrimSpace` | cmd/awsconf.go:139 | `strings.TrimSpace`: trims leading white space, then trailing white space, as specified by `TrimLeftSpace` and `TrimRightSpace` |
| `GoStrings.TrimSpaceEmptyIffBlank` | cmd/awsconf.go:139 | `strings.TrimSpace(s) == ""` exactly when `s` consists only of white space |
| `Dotfile.Candidate` | cmd/awsconf.go:163-166 | each fresh line is its kind's prefix followed by its value (access key, secret key, token, or the region flag) |
| `Dotfile.Classify` | cmd/awsconf.go:187-199 | the if/else-if chain of `Contains` tests that decides which line, if any, a line is replaced by; characterised by `ClassifyFirstMatch` |
| `Dotfile.Rewrite` | cmd/awsconf.go:186-199 | the replacement of one line: a recognised line becomes its kind's fresh line, another line is kept; see `RewriteKeepsKind` and `RewrittenAreFresh` |
| `Dotfile.RewriteAll` | cmd/awsconf.go:186-200 | the loop's in-place overwrites, as the list of rewritten lines; `Awsconf.RewriteLines` is proved to compute it, and `FullRewrite` states its effect |
| `Dotfile.Found` | cmd/awsconf.go:181-200 | the flags `hasAccessKey` and the others: some line is recognised as the kind; `Awsconf.RewriteLines` is proved to set each flag to it |
| `Dotfile.ClassifyFirstMatch` | cmd/awsconf.go:186-200 | a recognised line contains its kind's prefix and the prefix of no kind tested earlier; a line is unrecognised exactly when it contains none of the four prefixes |
| `Dotfile.CandidateOtherPrefix` | cmd/awsconf.go:187-196 | one kind's prefix, followed by a value, contains another kind's prefix only if the value does |
| `Dotfile.CandidateClassified` | cmd/awsconf.go:163-166 | a fresh line whose value holds no newline and no other kind's prefix is recognised as its own kind |
| `Dotfile.RewriteKeepsKind` | cmd/awsconf.go:186-200 | with clean values, rewriting a line does not change how it is classified |
| `Dotfile.EmptyLineUnrecognised` | cmd/awsconf.go:186-200 | the empty line is not recognised as any kind |
| `Dotfile.Missing` | cmd/awsconf.go:211-222 | the kinds whose flag is false, in write order; characterised by `MissingKinds` |
| `Dotfile.Appendix` | cmd/awsconf.go:211-224 | the text the buffered writer appends at `Flush`; characterised by `AppendixInOrder`, `AppendixSplit` and `Awsconf.AppendixFromFlags` |
| `Dotfile.ReconcileContent` | cmd/awsconf.go:179-224 | the dotfile's new content as a function of its old content; characterised by `FullRewrite`, `AppendOnly`, `EmptyFile`, `Idempotent` and `PrefixesPresent`, and `Awsconf.ModifyShellProfile` is proved to produce it |
| `Dotfile.MissingKinds` | cmd/awsconf.go:211-222 | the kinds that get appended are exactly the kinds not found, in the order access key, secret key, token, region |
| `Dotfile.SplitTerminated` | cmd/awsconf.go:211-222 | the appended text, one newline-terminated line per missing kind, splits back into those lines plus a final empty piece |
| `Dotfile.EmptyFile` | cmd/awsconf.go:179-224 | an empty or absent file ends up as the four fresh lines, each ending in a newline, in the fixed order |
| `Dotfile.FullRewrite` | cmd/awsconf.go:203-210 | when no value holds a newline and all four kinds are found: the line count is kept, unrecognised lines are kept at their positions, recognised lines become their kind's fresh line, and a trailing newline is kept |
| `Dotfile.RewrittenSplit` | cmd/awsconf.go:207 | for a non-empty list of lines, when neither the lines nor the values hold a newline, the rewritten lines, joined and split again, come back unchanged |
| `Dotfile.AppendOnly` | cmd/awsconf.go:211-224 | when no value holds a newline and some kind is missing, the old content is kept byte for byte as a prefix and what follows is exactly the missing kinds' fresh lines; a file ending in a newline gets those lines after its own |
| `Dotfile.AppendPathContent` | cmd/awsconf.go:211-224 | when some kind is missing, the new content is the old content followed by the appended text (the append branch of `ReconcileContent`'s definition, restated as a proof step) |
| `Dotfile.FullPathContent` | cmd/awsconf.go:203-210 | when all four kinds are found, the new content is the rewritten lines joined with `"\n"` and nothing is appended (the rewrite branch of `ReconcileContent`'s definition, restated as a proof step) |
| `Dotfile.AppendixSplit` | cmd/awsconf.go:211-222 | the appended text splits into the missing kinds' fresh lines followed by an empty piece |
| `Dotfile.AppendixInOrder` | cmd/awsconf.go:211-222 | the appended text is the access-key, secret-key, token and region lines, each present only when that kind was missing, in that order |
| `Dotfile.ReconcileInWriteOrder` | cmd/awsconf.go:203-224 | the new content is, in write order, the body (rewritten if all four kinds are found, kept otherwise) followed by the appended text |
| `Dotfile.RewriteKeepsFound` | cmd/awsconf.go:186-200 | with clean values, a kind found in the old lines is still found after rewriting |
| `Dotfile.RewrittenAreFresh` | cmd/awsconf.go:186-200 | with clean values, every rewritten line is a fixed point of the rewrite |
| `Dotfile.FixedPoint` | cmd/awsconf.go:203-210 | a file where all four kinds are found and every line is already fresh is left unchanged |
| `Dotfile.Idempotent` | cmd/awsconf.go:179-224 | with clean values, when all four kinds are found, running the reconciliation a second time with the same values changes nothing |
| `Dotfile.AllKindsAfterRun` | cmd/awsconf.go:179-224 | with clean values, after one run on a file that is empty, ends in a newline, or already has all four kinds, all four kinds are found |
| `Dotfile.AppendedFound` | cmd/awsconf.go:211-222 | with clean values, after an append-only run on a newline-terminated file, each kind is found, either in its old line or in its appended line |
| `Dotfile.Converges` | cmd/awsconf.go:179-224 | with clean values, on a file that is empty or ends in a newline, the second run takes the full-rewrite path and a third run changes nothing |
| `Dotfile.PrefixesPresent` | cmd/awsconf.go:179-224 | whatever the old content and the values, each of the four prefixes occurs in the new content |
| `DotfileScenarios.PartialMatchKeepsStaleRegion` | cmd/awsconf.go:196-222 | a file with a stale region line and an unrelated line keeps the stale region, and only the three credential lines are appended |
| `DotfileScenarios.MissingNewlineGluesLines` | cmd/awsconf.go:179-222 | a file made of one region line without a newline gets the fresh access-key line glued onto that line; the glued line is recognised as an access-key line, so the next run finds no region and appends a region line |
| `Awsconf.FileSystem.OpenOrCreate` | cmd/awsconf.go:168 | opening with `O_CREATE` creates an empty file if none exists and leaves an existing one unchanged |
| `Awsconf.FileSystem.ReadAll` | cmd/awsconf.go:175 | reading returns the whole content of the file |
| `Awsconf.FileSystem.Truncate` | cmd/awsconf.go:204 | truncation empties this one file and leaves the others unchanged |
| `Awsconf.FileSystem.WriteString` | cmd/awsconf.go:207 | a write on an `O_APPEND` handle appends to the end of the file |
| `Awsconf.ModifyShellProfile` | cmd/awsconf.go:162-225 | the dotfile's new content is `ReconcileContent` of its old content (empty when absent), and no other file changes |
| `Awsconf.AppendixFromFlags` | cmd/awsconf.go:211-224 | the buffer built from the four found flags, one conditional write per kind, is exactly the appended text |
| `Awsconf.RewriteLines` | cmd/awsconf.go:181-200 | the loop leaves every line rewritten and sets each flag exactly when some line was recognised as that kind |
| `Awsconf.FoundExtend` | cmd/awsconf.go:186-200 | one more loop step finds a kind exactly when it was found before or the new line is recognised as that kind |
| `Awsconf.SelectStrategy` | cmd/awsconf.go:135-160 | MFA when neither the role ARN nor the MFA serial is blank; role without MFA when only the serial is blank; profile credentials when the role ARN is blank; the untrimmed ARN and serial are passed on |
| `Awsconf.RoleArnKey` | cmd/awsconf.go:44 | the key is `aws.<profile>.roleArn`, and the profile can be read back from it |
| `Awsconf.AwsProfileKey` | cmd/awsconf.go:45 | the key is `aws.<profile>.awsProfile`, and the profile can be read back from it |
| `Awsconf.SettingsKeysDistinct` | cmd/awsconf.go:44-45 | different profiles give different keys, and a role key never equals a profile key |
| `Awsconf.DotFilePath` | cmd/awsconf.go:116 | the path is the home directory, `/`, then the dotfile name, and both parts can be read back |
| `Awsconf.DotFilePathInjective` | cmd/awsconf.go:116 | under one home directory, different dotfile names give different paths |
| `Awsconf.AssumeRole` | cmd/awsconf.go:85-129 | each stage's error ends the run with that error and leaves every file unchanged; on success the STS request carries the role ARN and the session id, the config request uses the `--profile` value and the selected strategy, and the dotfile under the home directory is reconciled with the assumed credentials and the `--region` value |
| `Awsconf.Run` | cmd/awsconf.go:42-56 | with unreadable settings nothing happens; otherwise the run succeeds exactly when every stage does, and uses the role ARN and AWS profile stored under the `--profile` value's keys |

## Left out

- The AWS SDK is not modelled. `LoadSharedConfigProfile`, `LoadDefaultConfig`, `sts.NewFromConfig` and `TakeRole`/`AssumeRole` are foreign calls. Their outcomes are inputs in `Environment`, and only the requests built for them (`ConfigRequest`, `AssumeRoleRequest`) are modelled.
- The MFA token read from standard input (`stscreds.StdinTokenProvider`) is left out because it is I/O. The model records only that the MFA strategy was chosen.
- `nanoid.New` is left out because it draws random bytes. The session name is the parameter `sessionId`, and its error is ignored as in the code.
- `os.UserHomeDir` is a foreign call. Its outcome is `Environment.home`.
- I/O errors from `ioutil.ReadAll`, `Truncate`, `WriteString` and `Flush` are not modelled. Neither is the `log.Fatal` exit after a failed open or buffered write, nor `Close`. The file operations always succeed.
- Awsconf.ModifyShellProfile: the `bufio.Writer` is modelled as a local string that is appended to the file once, at the point of `Flush`. Buffer sizes and partial flushes are not modelled, and with no I/O errors they do not change the result.
- Coloured printing (`printCyan`, `printRed`, `printGreen`) is left out because it is output only.
- Cobra flag parsing is not modelled. The flags are the `Flags` value, with the defaults `DefaultFlags`.
- Viper is not modelled beyond the settings as a map. Its case-insensitive key lookup is left out; a missing key yields `""`, as in the code.
- Go strings are byte strings, but the model uses `seq<char>`. Every separator and prefix involved is ASCII, so splitting and matching are unaffected.
- `cmd/root.go` and `cmd/server.go` are not part of this model: they are command dispatch and an unrelated HTTP echo server.
- An unreadable settings file makes the handler (`Awsconf.Run`) return without doing anything and without an error, because that is what the code does (`if err := viper.ReadInConfig(); err == nil { … }`). A design that reports a configuration error in that case is not followed.
