/**
 * The `awsconf` command of cmd/awsconf.go: it reads the role and AWS profile
 * for a tool profile from the settings, chooses how the caller authenticates,
 * assumes the role, and writes the temporary credentials into a shell dotfile
 * under the home directory.
 *
 * The file system is a `FileSystem` object whose `files` map is changed in
 * place; the cloud SDK and the OS (shared profile config, SDK config loading,
 * the role assumption, the home directory) are an `Environment` of answers the
 * model takes as given.
 */
module Awsconf {
  import opened GoStrings
  import opened Dotfile

  const DefaultDotFile: string := ".zshenv"
  const DefaultAwsRegion: string := "eu-central-1"
  const DefaultAwsProfile: string := "default"

  /** The command-line flags of `awsconf`. */
  datatype Flags = Flags(region: string, profile: string, dotFile: string)

  const DefaultFlags: Flags := Flags(DefaultAwsRegion, DefaultAwsProfile, DefaultDotFile)

  datatype Result<T> = Ok(value: T) | Err(error: string)

  // ---------------------------------------------------------------------------
  // Files

  /** The content at `path`, or nothing for a file that does not exist yet. */
  function ContentAt(files: map<string, string>, path: string): string
  {
    if path in files then files[path] else ""
  }

  /** The files of the machine, by path. */
  class FileSystem {
    var files: map<string, string>

    constructor (files: map<string, string>)
      ensures this.files == files
    {
      this.files := files;
    }

    /** Opening with create: a missing file is created empty, an existing one is left as it is. */
    method OpenOrCreate(path: string)
      modifies this
      ensures files == old(files)[path := ContentAt(old(files), path)]
    {
      files := files[path := ContentAt(files, path)];
    }

    /** Reads an open file from its start to its end. */
    method ReadAll(path: string) returns (content: string)
      requires path in files
      ensures content == files[path]
    {
      content := files[path];
    }

    /** Truncates an open file to length zero. */
    method Truncate(path: string)
      requires path in files
      modifies this
      ensures files == old(files)[path := ""]
    {
      files := files[path := ""];
    }

    /** Writes to a file opened in append mode: the text always lands at the end. */
    method WriteString(path: string, text: string)
      requires path in files
      modifies this
      ensures files == old(files)[path := old(files)[path] + text]
    {
      files := files[path := files[path] + text];
    }
  }

  /**
   * Reconciles the dotfile at `dotFilePath` with the fresh credentials and
   * region: the file (created when missing) ends up holding
   * `ReconcileContent` of its old content, and no other file changes.
   */
  method ModifyShellProfile(fs: FileSystem, creds: Credentials, region: string, dotFilePath: string)
    modifies fs
    ensures fs.files == old(fs.files)[dotFilePath := ReconcileContent(ContentAt(old(fs.files), dotFilePath), creds, region)]
  {
    var accessKey := Candidate(AccessKey, creds, region);
    var secretKey := Candidate(SecretKey, creds, region);
    var token := Candidate(SessionToken, creds, region);
    var awsRegion := Candidate(Region, creds, region);

    ghost var before := fs.files;
    fs.OpenOrCreate(dotFilePath);
    ghost var created := fs.files;
    var input := fs.ReadAll(dotFilePath);
    var parts := Split(input);
    var lines := new string[|parts|](i requires 0 <= i < |parts| => parts[i]);
    assert lines[..] == parts;

    var hasAccessKey, hasSecretKey, hasToken, hasRegion := RewriteLines(lines, creds, region);

    // The buffered writer collects the missing lines and hands them to the
    // file in one append when flushed.
    var buffered := "";
    if hasAccessKey && hasSecretKey && hasToken && hasRegion {
      fs.Truncate(dotFilePath);
      fs.WriteString(dotFilePath, Join(lines[..]));
    }
    ghost var written := fs.files;
    assert written == before[dotFilePath := written[dotFilePath]] by {
      if hasAccessKey && hasSecretKey && hasToken && hasRegion {
        UpdateTwice(created, dotFilePath, "", written[dotFilePath]);
      }
      UpdateTwice(before, dotFilePath, input, written[dotFilePath]);
    }
    assert written[dotFilePath] == if AllFound(parts) then Join(RewriteAll(parts, creds, region)) else input;
    if !hasAccessKey {
      buffered := buffered + accessKey + "\n";
    }
    assert buffered == Buffered("", hasAccessKey, accessKey);
    if !hasSecretKey {
      buffered := buffered + secretKey + "\n";
    }
    assert buffered == Buffered(Buffered("", hasAccessKey, accessKey), hasSecretKey, secretKey);
    if !hasToken {
      buffered := buffered + token + "\n";
    }
    if !hasRegion {
      buffered := buffered + awsRegion + "\n";
    }
    assert buffered == Appendix(parts, creds, region) by {
      AppendixFromFlags(parts, creds, region, hasAccessKey, hasSecretKey, hasToken, hasRegion);
    }
    assert written[dotFilePath] + buffered == ReconcileContent(input, creds, region) by {
      ReconcileInWriteOrder(input, creds, region);
    }
    fs.WriteString(dotFilePath, buffered);
    UpdateTwice(before, dotFilePath, written[dotFilePath], written[dotFilePath] + buffered);
  }

  /** The text the code buffers for one kind: the kind's fresh line, unless the kind was found. */
  function Buffered(buffered: string, has: bool, line: string): string
  {
    if has then buffered else buffered + line + "\n"
  }

  /** The appended text, spelled out the way the code builds it from its four flags. */
  lemma {:induction false} AppendixFromFlags(lines: seq<string>, creds: Credentials, region: string,
                                             hasAccessKey: bool, hasSecretKey: bool, hasToken: bool, hasRegion: bool)
    requires hasAccessKey == Found(lines, AccessKey) && hasSecretKey == Found(lines, SecretKey)
    requires hasToken == Found(lines, SessionToken) && hasRegion == Found(lines, Region)
    ensures Appendix(lines, creds, region) ==
            Buffered(Buffered(Buffered(Buffered("", hasAccessKey, Candidate(AccessKey, creds, region)),
                                       hasSecretKey, Candidate(SecretKey, creds, region)),
                              hasToken, Candidate(SessionToken, creds, region)),
                     hasRegion, Candidate(Region, creds, region))
  {
    AppendixInOrder(lines, creds, region);
    var b1 := Buffered("", hasAccessKey, Candidate(AccessKey, creds, region));
    var b2 := Buffered(b1, hasSecretKey, Candidate(SecretKey, creds, region));
    var b3 := Buffered(b2, hasToken, Candidate(SessionToken, creds, region));
    var a1 := AppendedLine(lines, AccessKey, creds, region);
    var a2 := AppendedLine(lines, SecretKey, creds, region);
    var a3 := AppendedLine(lines, SessionToken, creds, region);
    var a4 := AppendedLine(lines, Region, creds, region);
    assert b1 == a1;
    BufferedStep(b1, hasSecretKey, Candidate(SecretKey, creds, region), a2);
    BufferedStep(b2, hasToken, Candidate(SessionToken, creds, region), a3);
    BufferedStep(b3, hasRegion, Candidate(Region, creds, region), a4);
  }

  lemma {:induction false} BufferedStep(buffered: string, has: bool, line: string, appended: string)
    requires appended == if has then "" else line + "\n"
    ensures Buffered(buffered, has, line) == buffered + appended
  {
    if has {
      assert buffered + "" == buffered;
    }
  }

  lemma UpdateTwice<K, V>(m: map<K, V>, k: K, x: V, y: V)
    ensures m[k := x][k := y] == m[k := y]
  {
  }

  /**
   * The loop over the file's lines: each recognised line is replaced in place
   * by its kind's fresh line, and the four flags say which kinds were seen.
   */
  method RewriteLines(lines: array<string>, creds: Credentials, region: string)
    returns (hasAccessKey: bool, hasSecretKey: bool, hasToken: bool, hasRegion: bool)
    modifies lines
    ensures lines[..] == RewriteAll(old(lines[..]), creds, region)
    ensures hasAccessKey == Found(old(lines[..]), AccessKey) && hasSecretKey == Found(old(lines[..]), SecretKey)
    ensures hasToken == Found(old(lines[..]), SessionToken) && hasRegion == Found(old(lines[..]), Region)
  {
    var accessKey := AccessKeyLine + creds.accessKeyId;
    var secretKey := SecretKeyLine + creds.secretAccessKey;
    var token := SessionTokenLine + creds.sessionToken;
    var awsRegion := RegionLine + region;
    ghost var parts := lines[..];

    hasAccessKey, hasSecretKey, hasToken, hasRegion := false, false, false, false;
    for i := 0 to lines.Length
      invariant forall j :: 0 <= j < i ==> lines[j] == Rewrite(parts[j], creds, region)
      invariant forall j :: i <= j < lines.Length ==> lines[j] == parts[j]
      invariant hasAccessKey <==> Found(parts[..i], AccessKey)
      invariant hasSecretKey <==> Found(parts[..i], SecretKey)
      invariant hasToken <==> Found(parts[..i], SessionToken)
      invariant hasRegion <==> Found(parts[..i], Region)
    {
      FoundExtend(parts, i);
      var line := lines[i];
      if Contains(line, AccessKeyLine) {
        lines[i] := accessKey;
        hasAccessKey := true;
      } else if Contains(line, SecretKeyLine) {
        lines[i] := secretKey;
        hasSecretKey := true;
      } else if Contains(line, SessionTokenLine) {
        lines[i] := token;
        hasToken := true;
      } else if Contains(line, RegionLine) {
        lines[i] := awsRegion;
        hasRegion := true;
      }
    }
    assert parts[..lines.Length] == parts;
  }

  /** Whether the first `i + 1` lines hold a kind: the first `i` do, or line `i` is of it. */
  lemma {:induction false} FoundExtend(lines: seq<string>, i: nat)
    requires i < |lines|
    ensures forall k :: Found(lines[..i + 1], k) <==> Found(lines[..i], k) || Classify(lines[i]) == Some(k)
  {
    forall k ensures Found(lines[..i + 1], k) <==> Found(lines[..i], k) || Classify(lines[i]) == Some(k) {
      if Found(lines[..i + 1], k) {
        var j :| 0 <= j < i + 1 && Classify(lines[..i + 1][j]) == Some(k);
        if j < i {
          assert lines[..i][j] == lines[j];
        }
      }
      if Found(lines[..i], k) {
        var j :| 0 <= j < i && Classify(lines[..i][j]) == Some(k);
        assert lines[..i + 1][j] == lines[j];
      }
      if Classify(lines[i]) == Some(k) {
        assert lines[..i + 1][i] == lines[i];
      }
    }
  }

  // ---------------------------------------------------------------------------
  // Authentication strategy

  /** The settings of the AWS profile that decide how the caller authenticates. */
  datatype SharedConfig = SharedConfig(roleArn: string, mfaSerial: string)

  /** How the SDK configuration obtains the caller's credentials. */
  datatype Strategy =
    | AssumeRoleWithMfa(roleArn: string, mfaSerial: string)  // MFA code read from standard input
    | AssumeRoleNoMfa(roleArn: string)
    | ProfileCredentials                                     // whatever the profile itself provides

  /**
   * The strategy `loadAwsConfig` chooses: a role to assume when the profile
   * names one (with MFA when it also names a serial), the profile's own
   * credentials otherwise. Values are tested after trimming white space but
   * passed on untrimmed.
   */
  function SelectStrategy(conf: SharedConfig): (s: Strategy)
    ensures s.AssumeRoleWithMfa? <==> !IsBlank(conf.roleArn) && !IsBlank(conf.mfaSerial)
    ensures s.AssumeRoleNoMfa? <==> !IsBlank(conf.roleArn) && IsBlank(conf.mfaSerial)
    ensures s.ProfileCredentials? <==> IsBlank(conf.roleArn)
    ensures !s.ProfileCredentials? ==> s.roleArn == conf.roleArn
    ensures s.AssumeRoleWithMfa? ==> s.mfaSerial == conf.mfaSerial
  {
    TrimSpaceEmptyIffBlank(conf.roleArn);
    TrimSpaceEmptyIffBlank(conf.mfaSerial);
    if TrimSpace(conf.roleArn) != "" && TrimSpace(conf.mfaSerial) != "" then
      AssumeRoleWithMfa(conf.roleArn, conf.mfaSerial)
    else if TrimSpace(conf.roleArn) != "" then
      AssumeRoleNoMfa(conf.roleArn)
    else
      ProfileCredentials
  }

  /** What the SDK configuration is loaded with: a named shared profile and a strategy. */
  datatype ConfigRequest = ConfigRequest(profile: string, strategy: Strategy)

  // ---------------------------------------------------------------------------
  // Settings keys and the dotfile path

  /** The settings key of a tool profile's role. */
  function RoleArnKey(profile: string): (key: string)
    ensures |key| == |profile| + 12
    ensures key[..4] == "aws." && key[4..|key| - 8] == profile && key[|key| - 8..] == ".roleArn"
  {
    "aws." + profile + ".roleArn"
  }

  /** The settings key of a tool profile's AWS profile. */
  function AwsProfileKey(profile: string): (key: string)
    ensures |key| == |profile| + 15
    ensures key[..4] == "aws." && key[4..|key| - 11] == profile && key[|key| - 11..] == ".awsProfile"
  {
    "aws." + profile + ".awsProfile"
  }

  /** Different tool profiles read different keys, and the role and AWS-profile keys never meet. */
  lemma {:induction false} SettingsKeysDistinct(p: string, q: string)
    ensures RoleArnKey(p) == RoleArnKey(q) <==> p == q
    ensures AwsProfileKey(p) == AwsProfileKey(q) <==> p == q
    ensures RoleArnKey(p) != AwsProfileKey(q)
  {
    var r, a := RoleArnKey(p), AwsProfileKey(q);
    assert r[|r| - 1] == r[|r| - 8..][7] == 'n';
    assert a[|a| - 1] == a[|a| - 11..][10] == 'e';
    if RoleArnKey(p) == RoleArnKey(q) {
      assert p == RoleArnKey(p)[4..|RoleArnKey(p)| - 8];
    }
    if AwsProfileKey(p) == AwsProfileKey(q) {
      assert p == AwsProfileKey(p)[4..|AwsProfileKey(p)| - 11];
    }
  }

  /** The dotfile's path: the home directory, a slash, and the dotfile flag. */
  function DotFilePath(home: string, dotFile: string): (path: string)
    ensures |path| == |home| + 1 + |dotFile|
    ensures path[..|home|] == home && path[|home|] == '/' && path[|home| + 1..] == dotFile
  {
    home + "/" + dotFile
  }

  /** Within one home directory, different dotfile names give different paths. */
  lemma {:induction false} DotFilePathInjective(home: string, f: string, g: string)
    ensures DotFilePath(home, f) == DotFilePath(home, g) <==> f == g
  {
    if DotFilePath(home, f) == DotFilePath(home, g) {
      assert f == DotFilePath(home, f)[|home| + 1..];
    }
  }

  /** The value the settings hold for `key`; empty when the key is missing. */
  function GetString(settings: map<string, string>, key: string): string
  {
    if key in settings then settings[key] else ""
  }

  // ---------------------------------------------------------------------------
  // The command

  /**
   * The answers of the SDK and the OS during one run: the shared config of the
   * AWS profile, the error of loading the SDK configuration (if any), the
   * result of assuming the role, and the home directory.
   */
  datatype Environment = Environment(
    sharedConfig: Result<SharedConfig>,
    configError: Option<string>,
    assumed: Result<Credentials>,
    home: Result<string>)

  /** Every stage answers without an error. */
  predicate Succeeds(env: Environment)
  {
    env.sharedConfig.Ok? && env.configError.None? && env.assumed.Ok? && env.home.Ok?
  }

  /** The request sent to assume the role. */
  datatype AssumeRoleRequest = AssumeRoleRequest(roleArn: string, roleSessionName: string)

  /** What a successful run did besides writing the dotfile. */
  datatype Session = Session(
    sharedProfile: string,
    config: ConfigRequest,
    request: AssumeRoleRequest,
    dotFilePath: string)

  /**
   * `assumeRole`: loads the shared config of `awsProfile`, loads the SDK
   * configuration with the chosen strategy for the `--profile` flag's profile,
   * assumes `roleArn` under the session name `sessionId`, and writes the
   * credentials into the dotfile. The first stage that fails ends the run with
   * its error and leaves every file as it was.
   */
  method AssumeRole(fs: FileSystem, env: Environment, flags: Flags, roleArn: string, awsProfile: string,
                    sessionId: string) returns (r: Result<Session>)
    modifies fs
    ensures env.sharedConfig.Err? ==> r == Err(env.sharedConfig.error)
    ensures env.sharedConfig.Ok? && env.configError.Some? ==> r == Err(env.configError.value)
    ensures env.sharedConfig.Ok? && env.configError.None? && env.assumed.Err? ==> r == Err(env.assumed.error)
    ensures env.sharedConfig.Ok? && env.configError.None? && env.assumed.Ok? && env.home.Err? ==>
              r == Err(env.home.error)
    ensures r.Err? ==> fs.files == old(fs.files)
    ensures Succeeds(env) ==>
              var path := DotFilePath(env.home.value, flags.dotFile);
              r == Ok(Session(awsProfile,
                              ConfigRequest(flags.profile, SelectStrategy(env.sharedConfig.value)),
                              AssumeRoleRequest(roleArn, sessionId),
                              path)) &&
              fs.files == old(fs.files)[path := ReconcileContent(ContentAt(old(fs.files), path),
                                                                 env.assumed.value, flags.region)]
  {
    if env.sharedConfig.Err? {
      return Err(env.sharedConfig.error);
    }
    var config := ConfigRequest(flags.profile, SelectStrategy(env.sharedConfig.value));
    if env.configError.Some? {
      return Err(env.configError.value);
    }
    var input := AssumeRoleRequest(roleArn, sessionId);
    if env.assumed.Err? {
      return Err(env.assumed.error);
    }
    if env.home.Err? {
      return Err(env.home.error);
    }
    var dotFilePath := DotFilePath(env.home.value, flags.dotFile);
    ModifyShellProfile(fs, env.assumed.value, flags.region, dotFilePath);
    r := Ok(Session(awsProfile, config, input, dotFilePath));
  }

  /**
   * The command's handler: with readable settings it looks up the role and the
   * AWS profile of the `--profile` flag's tool profile and assumes the role;
   * with unreadable settings it does nothing at all.
   */
  method Run(fs: FileSystem, settings: Option<map<string, string>>, flags: Flags, env: Environment,
             sessionId: string) returns (r: Option<Result<Session>>)
    modifies fs
    ensures settings.None? ==> r == None && fs.files == old(fs.files)
    ensures settings.Some? ==> r.Some? && (r.value.Ok? <==> Succeeds(env))
    ensures r.Some? && r.value.Err? ==> fs.files == old(fs.files)
    ensures r.Some? && r.value.Ok? ==>
              r.value.value.request.roleArn == GetString(settings.value, RoleArnKey(flags.profile)) &&
              r.value.value.sharedProfile == GetString(settings.value, AwsProfileKey(flags.profile)) &&
              r.value.value.config.profile == flags.profile &&
              r.value.value.request.roleSessionName == sessionId
    ensures settings.Some? && Succeeds(env) ==>
              var path := DotFilePath(env.home.value, flags.dotFile);
              r.value.value.config.strategy == SelectStrategy(env.sharedConfig.value) &&
              r.value.value.dotFilePath == path &&
              fs.files == old(fs.files)[path := ReconcileContent(ContentAt(old(fs.files), path),
                                                                 env.assumed.value, flags.region)]
  {
    if settings.None? {
      return None;
    }
    var roleArn := GetString(settings.value, RoleArnKey(flags.profile));
    var awsProfile := GetString(settings.value, AwsProfileKey(flags.profile));
    var outcome := AssumeRole(fs, env, flags, roleArn, awsProfile, sessionId);
    r := Some(outcome);
  }
}
