/**
 * Two concrete runs of the dotfile reconciliation that show its append rule
 * at work: a partial match leaves the stale region line in place, and a file
 * without a trailing newline gets the first appended line glued to its last
 * line.
 *
 * Every lemma takes the concrete text as a parameter fixed by its `requires`,
 * so that the verifier reasons about the functions symbolically rather than by
 * evaluating them on the literals.
 */
module DotfileScenarios {
  import opened GoStrings
  import opened Dotfile

  const Creds := Credentials("AKIA1", "s3cr3t", "tok1")
  const Flag := "eu-west-1"

  /** `export AWS_REGION=us-east-1` */
  const OldRegion := RegionLine + "us-east-1"
  const Foo := "export FOO=1"

  /** `export AWS_ACCESS_KEY_ID=AKIA1` and the other three fresh lines. */
  const NewAccessKey := AccessKeyLine + "AKIA1"
  const NewSecretKey := SecretKeyLine + "s3cr3t"
  const NewToken := SessionTokenLine + "tok1"
  const NewRegion := RegionLine + "eu-west-1"

  /** The three lines the first run appends in both scenarios. */
  const ThreeLines := NewAccessKey + "\n" + NewSecretKey + "\n" + NewToken + "\n"

  /** Values shorter than every prefix and free of newlines are clean. */
  lemma {:induction false} ShortValuesClean(creds: Credentials, region: string)
    requires forall k :: |Value(k, creds, region)| < 18 && '\n' !in Value(k, creds, region)
    ensures CleanValues(creds, region)
  {
    forall k, k' ensures !Contains(Value(k, creds, region), Prefix(k')) {
      PrefixShape(k');
      ShortNotContains(Value(k, creds, region), Prefix(k'));
    }
  }

  lemma {:induction false} ScenarioValuesClean(creds: Credentials, region: string)
    requires creds == Creds && region == Flag
    ensures CleanValues(creds, region)
  {
    assert '\n' !in "AKIA1" && '\n' !in "s3cr3t";
    assert '\n' !in "tok1" && '\n' !in "eu-west-1";
    forall k ensures |Value(k, creds, region)| < 18 && '\n' !in Value(k, creds, region) {
    }
    ShortValuesClean(creds, region);
  }

  /** The fresh lines of the scenario's values are the four `New...` lines. */
  lemma {:induction false} ScenarioCandidates(creds: Credentials, region: string)
    requires creds == Creds && region == Flag
    ensures Candidate(AccessKey, creds, region) == NewAccessKey
    ensures Candidate(SecretKey, creds, region) == NewSecretKey
    ensures Candidate(SessionToken, creds, region) == NewToken
    ensures Candidate(Region, creds, region) == NewRegion
  {
  }

  lemma {:induction false} NotAnotherKind(v: string, k: Kind)
    requires |v| < 18 && k != Region
    ensures !Contains(Prefix(Region) + v, Prefix(k))
  {
    PrefixShape(k);
    ShortNotContains(v, Prefix(k));
    CandidateOtherPrefix(Region, k, v);
  }

  /** A region line whose value is shorter than every prefix is recognised as a region line only. */
  lemma {:induction false} ShortRegionLine(v: string)
    requires |v| < 18
    ensures Classify(RegionLine + v) == Some(Region)
  {
    NotAnotherKind(v, AccessKey);
    NotAnotherKind(v, SecretKey);
    NotAnotherKind(v, SessionToken);
    assert HasPrefix(RegionLine + v, RegionLine);
  }

  /** The old region line is recognised as a region line and as nothing else. */
  lemma {:induction false} OldRegionIsRegion()
    ensures Classify(OldRegion) == Some(Region)
  {
    ShortRegionLine("us-east-1");
  }

  /** A line shorter than every prefix is not recognised. */
  lemma {:induction false} ShortLineUnrecognised(line: string)
    requires |line| < 18
    ensures Classify(line) == None
  {
    PrefixShape(AccessKey);
    PrefixShape(SecretKey);
    PrefixShape(SessionToken);
    PrefixShape(Region);
    ShortNotContains(line, AccessKeyLine);
    ShortNotContains(line, SecretKeyLine);
    ShortNotContains(line, SessionTokenLine);
    ShortNotContains(line, RegionLine);
  }

  lemma {:induction false} OldLinesHaveNoNewline(region: string, foo: string)
    requires region == OldRegion && foo == Foo
    ensures '\n' !in region && '\n' !in foo
  {
    PrefixShape(Region);
    assert '\n' !in "us-east-1";
    assert '\n' !in Foo;
  }

  lemma {:induction false} OldFileSplit(s: string)
    requires s == OldRegion + "\n" + Foo + "\n"
    ensures Split(s) == [OldRegion, Foo, ""]
  {
    var lines := [OldRegion, Foo, ""];
    OldLinesHaveNoNewline(OldRegion, Foo);
    assert Join([Foo, ""]) == Foo + "\n" + "";
    assert lines[1..] == [Foo, ""];
    assert Join(lines) == OldRegion + "\n" + (Foo + "\n" + "");
    assert OldRegion + "\n" + (Foo + "\n" + "") == OldRegion + "\n" + Foo + "\n";
    SplitJoin(lines);
  }

  /** With only a region line among `lines`, the other three kinds are missing. */
  lemma {:induction false} OnlyRegionFound(lines: seq<string>)
    requires OldRegion in lines
    requires forall i :: 0 <= i < |lines| ==> lines[i] == OldRegion || Classify(lines[i]).None?
    ensures !AllFound(lines)
    ensures Missing(lines) == [AccessKey, SecretKey, SessionToken]
  {
    OldRegionIsRegion();
    assert Found(lines, Region);
  }

  /** In the old file of the partial-match scenario only the region kind is found. */
  lemma {:induction false} PartialMatchMissing(lines: seq<string>)
    requires |lines| == 3 && lines[0] == OldRegion && |lines[1]| < 18 && |lines[2]| < 18
    ensures !AllFound(lines)
    ensures Missing(lines) == [AccessKey, SecretKey, SessionToken]
  {
    ShortLineUnrecognised(lines[1]);
    ShortLineUnrecognised(lines[2]);
    assert OldRegion in lines;
    OnlyRegionFound(lines);
  }

  lemma {:induction false} TerminatedThree(a: string, b: string, c: string)
    ensures Terminated([a, b, c]) == a + "\n" + b + "\n" + c + "\n"
  {
    assert [a, b, c][1..] == [b, c];
    assert [b, c][1..] == [c];
    assert [c][1..] == [];
    assert Terminated([c]) == c + "\n" + "";
    assert Terminated([b, c]) == b + "\n" + (c + "\n");
  }

  /** When the access key, the secret key and the token are missing, their three lines are appended. */
  lemma {:induction false} ThreeMissingAppendix(lines: seq<string>, creds: Credentials, region: string)
    requires creds == Creds && region == Flag
    requires Missing(lines) == [AccessKey, SecretKey, SessionToken]
    ensures Appendix(lines, creds, region) == ThreeLines
  {
    var ks := Missing(lines);
    var cs := Candidates(ks, creds, region);
    ScenarioCandidates(creds, region);
    assert cs == [NewAccessKey, NewSecretKey, NewToken];
    TerminatedThree(NewAccessKey, NewSecretKey, NewToken);
  }

  /** The old file of the partial-match scenario takes the append path. */
  lemma {:induction false} PartialMatchAppends(s: string)
    requires s == OldRegion + "\n" + Foo + "\n"
    ensures Missing(Split(s)) == [AccessKey, SecretKey, SessionToken]
    ensures ReconcileContent(s, Creds, Flag) == s + Appendix(Split(s), Creds, Flag)
  {
    OldFileSplit(s);
    PartialMatchMissing(Split(s));
    AppendPathContent(s, Creds, Flag);
  }

  /**
   * Only the region kind is present, so nothing is rewritten: the stale
   * `us-east-1` line and the unrelated line stay, and the three missing lines
   * are appended, although the region flag says `eu-west-1`.
   */
  lemma {:induction false} PartialMatchKeepsStaleRegion(s: string)
    requires s == OldRegion + "\n" + Foo + "\n"
    ensures ReconcileContent(s, Creds, Flag) == s + ThreeLines
  {
    PartialMatchAppends(s);
    ThreeMissingAppendix(Split(s), Creds, Flag);
  }

  lemma {:induction false} NewLinesHaveNoNewline()
    ensures '\n' !in NewAccessKey && '\n' !in NewSecretKey && '\n' !in NewToken
  {
    PrefixShape(AccessKey);
    PrefixShape(SecretKey);
    PrefixShape(SessionToken);
    assert '\n' !in "AKIA1" && '\n' !in "s3cr3t" && '\n' !in "tok1";
  }

  /** The three appended lines split into lines of their own. */
  lemma {:induction false} ThreeLinesSplit(t: string)
    requires t == ThreeLines
    ensures Split(t) == [NewAccessKey, NewSecretKey, NewToken, ""]
  {
    var cs := [NewAccessKey, NewSecretKey, NewToken];
    TerminatedThree(NewAccessKey, NewSecretKey, NewToken);
    NewLinesHaveNoNewline();
    SplitTerminated(cs);
  }

  lemma {:induction false} GluedAccessKey(line: string)
    requires line == OldRegion + NewAccessKey
    ensures Classify(line) == Some(AccessKey)
  {
    assert HasPrefix(NewAccessKey, AccessKeyLine);
    ContainsExtendLeft(OldRegion, NewAccessKey, AccessKeyLine);
  }

  lemma {:induction false} FreshLinesClassified()
    ensures Classify(NewSecretKey) == Some(SecretKey) && Classify(NewToken) == Some(SessionToken)
  {
    ScenarioValuesClean(Creds, Flag);
    ScenarioCandidates(Creds, Flag);
    CandidateClassified(SecretKey, Creds, Flag);
    CandidateClassified(SessionToken, Creds, Flag);
  }

  /** The glued file's lines: the access-key, secret-key and token lines, and an empty piece. */
  lemma {:induction false} GluedKinds(after: seq<string>)
    requires after == [OldRegion + NewAccessKey, NewSecretKey, NewToken, ""]
    ensures Found(after, AccessKey) && Found(after, SecretKey) && Found(after, SessionToken)
    ensures !Found(after, Region)
  {
    GluedAccessKey(after[0]);
    FreshLinesClassified();
    assert Classify(after[1]) == Some(SecretKey) && Classify(after[2]) == Some(SessionToken);
    ShortLineUnrecognised(after[3]);
  }

  lemma {:induction false} GluedFirstRun(s: string)
    requires s == OldRegion
    ensures Split(s) == [s]
    ensures ReconcileContent(s, Creds, Flag) == s + ThreeLines
  {
    assert Split(s) == [s] by {
      OldLinesHaveNoNewline(s, Foo);
      SplitJoin([s]);
    }
    assert Missing([s]) == [AccessKey, SecretKey, SessionToken] by {
      OldRegionIsRegion();
      OnlyRegionFound([s]);
    }
    AppendPathContent(s, Creds, Flag);
    ThreeMissingAppendix([s], Creds, Flag);
  }

  lemma {:induction false} GluedSplit(s: string, r: string)
    requires s == OldRegion
    requires r == s + ThreeLines
    ensures Split(r) == [s + NewAccessKey, NewSecretKey, NewToken, ""]
  {
    ThreeLinesSplit(ThreeLines);
    SplitAppend(s, ThreeLines);
    assert Split(s) == [s] by {
      OldLinesHaveNoNewline(s, Foo);
      SplitJoin([s]);
    }
  }

  lemma {:induction false} GluedSecondRun(r: string)
    requires Split(r) == [OldRegion + NewAccessKey, NewSecretKey, NewToken, ""]
    ensures ReconcileContent(r, Creds, Flag) == r + (NewRegion + "\n")
  {
    var after := Split(r);
    assert Missing(after) == [Region] by {
      GluedKinds(after);
    }
    AppendPathContent(r, Creds, Flag);
    var cs := Candidates([Region], Creds, Flag);
    assert cs == [NewRegion] by {
      ScenarioCandidates(Creds, Flag);
    }
    assert Terminated(cs) == NewRegion + "\n" + "";
  }

  /**
   * A file whose last line has no newline gets the first appended line glued
   * onto that line. The glued line is then an access-key line, so the region
   * line is lost to the next run, which appends a second region line.
   */
  lemma {:induction false} MissingNewlineGluesLines(s: string)
    requires s == OldRegion
    ensures var r := ReconcileContent(s, Creds, Flag);
            r == s + ThreeLines &&
            Split(r) == [s + NewAccessKey, NewSecretKey, NewToken, ""] &&
            !Found(Split(r), Region) &&
            ReconcileContent(r, Creds, Flag) == r + (NewRegion + "\n")
  {
    var r := ReconcileContent(s, Creds, Flag);
    GluedFirstRun(s);
    GluedSplit(s, r);
    GluedKinds(Split(r));
    GluedSecondRun(r);
  }
}
