/**
 * The dotfile reconciliation of `modifyShellProfile` (cmd/awsconf.go), as a
 * function from the old file content to the new one, and what it guarantees.
 *
 * Four kinds of line are recognised, each by a fixed `export AWS_...=` prefix
 * that may occur anywhere in the line. A line belongs to the first kind, in the
 * order access key, secret key, session token, region, whose prefix it
 * contains. When all four kinds occur, every recognised line is replaced by its
 * kind's fresh line and the file is rewritten; otherwise the old content is
 * kept byte for byte and only the missing kinds' lines are appended.
 */
module Dotfile {
  import opened GoStrings

  datatype Option<T> = None | Some(value: T)

  /** The four recognised line kinds, in the order they are tested and appended. */
  datatype Kind = AccessKey | SecretKey | SessionToken | Region

  function Rank(k: Kind): nat
  {
    match k
    case AccessKey => 0
    case SecretKey => 1
    case SessionToken => 2
    case Region => 3
  }

  const AccessKeyLine: string := "export AWS_ACCESS_KEY_ID="
  const SecretKeyLine: string := "export AWS_SECRET_ACCESS_KEY="
  const SessionTokenLine: string := "export AWS_SESSION_TOKEN="
  const RegionLine: string := "export AWS_REGION="

  /** The prefix that recognises a line of kind `k`. */
  function Prefix(k: Kind): string
  {
    match k
    case AccessKey => AccessKeyLine
    case SecretKey => SecretKeyLine
    case SessionToken => SessionTokenLine
    case Region => RegionLine
  }

  /** The temporary credentials returned by the role assumption. */
  datatype Credentials = Credentials(accessKeyId: string, secretAccessKey: string, sessionToken: string)

  /** The value exported for each kind: a part of the credentials, or the region flag. */
  function Value(k: Kind, creds: Credentials, region: string): string
  {
    match k
    case AccessKey => creds.accessKeyId
    case SecretKey => creds.secretAccessKey
    case SessionToken => creds.sessionToken
    case Region => region
  }

  /** The fresh line of kind `k`: its prefix followed by its value. */
  function Candidate(k: Kind, creds: Credentials, region: string): (line: string)
    ensures HasPrefix(line, Prefix(k))
    ensures line[|Prefix(k)|..] == Value(k, creds, region)
  {
    Prefix(k) + Value(k, creds, region)
  }

  /**
   * The kind of a line: the first kind, in the order of `Rank`, whose prefix
   * the line contains anywhere; `None` when it contains no prefix.
   */
  function Classify(line: string): Option<Kind>
  {
    if Contains(line, AccessKeyLine) then Some(AccessKey)
    else if Contains(line, SecretKeyLine) then Some(SecretKey)
    else if Contains(line, SessionTokenLine) then Some(SessionToken)
    else if Contains(line, RegionLine) then Some(Region)
    else None
  }

  /** A recognised line becomes its kind's fresh line; any other line is kept. */
  function Rewrite(line: string, creds: Credentials, region: string): string
  {
    match Classify(line)
    case Some(k) => Candidate(k, creds, region)
    case None => line
  }

  function RewriteAll(lines: seq<string>, creds: Credentials, region: string): seq<string>
  {
    seq(|lines|, i requires 0 <= i < |lines| => Rewrite(lines[i], creds, region))
  }

  /** Some line of `lines` is of kind `k`. */
  predicate Found(lines: seq<string>, k: Kind)
  {
    exists i :: 0 <= i < |lines| && Classify(lines[i]) == Some(k)
  }

  predicate AllFound(lines: seq<string>)
  {
    Found(lines, AccessKey) && Found(lines, SecretKey) && Found(lines, SessionToken) && Found(lines, Region)
  }

  /** The kinds no line of `lines` is of, in the order they are appended. */
  function Missing(lines: seq<string>): seq<Kind>
  {
    (if Found(lines, AccessKey) then [] else [AccessKey]) +
    (if Found(lines, SecretKey) then [] else [SecretKey]) +
    (if Found(lines, SessionToken) then [] else [SessionToken]) +
    (if Found(lines, Region) then [] else [Region])
  }

  function Candidates(ks: seq<Kind>, creds: Credentials, region: string): seq<string>
  {
    seq(|ks|, i requires 0 <= i < |ks| => Candidate(ks[i], creds, region))
  }

  /** Each line followed by a newline, as the append path writes them. */
  function Terminated(lines: seq<string>): string
  {
    if lines == [] then "" else lines[0] + "\n" + Terminated(lines[1..])
  }

  /** The text the append path adds to the end of the file. */
  function Appendix(lines: seq<string>, creds: Credentials, region: string): string
  {
    Terminated(Candidates(Missing(lines), creds, region))
  }

  /**
   * The file content after one reconciliation of `content` with the given
   * credentials and region.
   */
  function ReconcileContent(content: string, creds: Credentials, region: string): string
  {
    var lines := Split(content);
    if AllFound(lines) then Join(RewriteAll(lines, creds, region))
    else content + Appendix(lines, creds, region)
  }

  /** No exported value holds a newline. */
  predicate NoNewlines(creds: Credentials, region: string)
  {
    forall k :: '\n' !in Value(k, creds, region)
  }

  /** A value that holds no newline and no other kind's prefix. */
  predicate CleanValue(k: Kind, v: string)
  {
    '\n' !in v && forall k' :: k' != k ==> !Contains(v, Prefix(k'))
  }

  predicate CleanValues(creds: Credentials, region: string)
  {
    forall k :: CleanValue(k, Value(k, creds, region))
  }

  // ---------------------------------------------------------------------------
  // Lines and prefixes

  /**
   * `Classify` picks the first kind whose prefix occurs in the line: the line
   * contains that kind's prefix and none of an earlier kind's, and it is
   * unrecognised exactly when it contains no prefix at all.
   */
  lemma {:induction false} ClassifyFirstMatch(line: string)
    ensures Classify(line).Some? ==> Contains(line, Prefix(Classify(line).value))
    ensures Classify(line).Some? ==>
            forall k :: Rank(k) < Rank(Classify(line).value) ==> !Contains(line, Prefix(k))
    ensures Classify(line).None? <==> forall k :: !Contains(line, Prefix(k))
  {
  }

  /** The missing kinds are exactly the kinds not found, listed in the order of `Rank`. */
  lemma {:induction false} MissingKinds(lines: seq<string>)
    ensures forall k :: k in Missing(lines) <==> !Found(lines, k)
    ensures forall i, j :: 0 <= i < j < |Missing(lines)| ==> Rank(Missing(lines)[i]) < Rank(Missing(lines)[j])
  {
    var a: seq<Kind> := if Found(lines, AccessKey) then [] else [AccessKey];
    var b: seq<Kind> := if Found(lines, SecretKey) then [] else [SecretKey];
    var c: seq<Kind> := if Found(lines, SessionToken) then [] else [SessionToken];
    var d: seq<Kind> := if Found(lines, Region) then [] else [Region];
    var m := Missing(lines);
    assert m == a + b + c + d;
    forall k ensures k in m <==> !Found(lines, k) {
      assert k in m <==> k in a || k in b || k in c || k in d;
      match k
      case AccessKey => assert k !in b && k !in c && k !in d;
      case SecretKey => assert k !in a && k !in c && k !in d;
      case SessionToken => assert k !in a && k !in b && k !in d;
      case Region => assert k !in a && k !in b && k !in c;
    }
    forall i, j | 0 <= i < j < |m| ensures Rank(m[i]) < Rank(m[j]) {
      RanksBelow(a, b, c, d, i, j);
    }
  }

  /** In a concatenation of lists that each hold at most their own kind, ranks rise. */
  lemma {:induction false} RanksBelow(a: seq<Kind>, b: seq<Kind>, c: seq<Kind>, d: seq<Kind>, i: nat, j: nat)
    requires a == [] || a == [AccessKey]
    requires b == [] || b == [SecretKey]
    requires c == [] || c == [SessionToken]
    requires d == [] || d == [Region]
    requires i < j < |a + b + c + d|
    ensures Rank((a + b + c + d)[i]) < Rank((a + b + c + d)[j])
  {
    var m := a + b + c + d;
    forall x | 0 <= x < |m|
      ensures Rank(m[x]) == if x < |a| then 0 else if x < |a + b| then 1 else if x < |a + b + c| then 2 else 3
    {
      if x < |a| {
        assert m[x] == a[x];
      } else if x < |a + b| {
        assert m[x] == b[x - |a|];
      } else if x < |a + b + c| {
        assert m[x] == c[x - |a + b|];
      } else {
        assert m[x] == d[x - |a + b + c|];
      }
    }
  }

  /** Every prefix is `e` followed by text without an `e` or a newline, at least 18 characters long. */
  lemma {:induction false} PrefixShape(k: Kind)
    ensures |Prefix(k)| >= 18
    ensures Prefix(k)[0] == 'e' && 'e' !in Prefix(k)[1..]
    ensures '\n' !in Prefix(k)
  {
    var tail := ShapeOf(k);
    assert Prefix(k)[1..] == tail;
  }

  /**
   * The text of a prefix after its first character.
   *
   * Each kind's shape comes from two small lemmas: one names the literal tail,
   * the other, given any string equal to that literal, checks its letters.
   * Keeping the literal out of the goal that checks the letters keeps the
   * verifier from evaluating the prefix functions on the literals all at once.
   */
  lemma {:induction false} ShapeOf(k: Kind) returns (tail: string)
    ensures Prefix(k) == "e" + tail && 'e' !in tail && '\n' !in tail && |tail| >= 17
  {
    match k
    case AccessKey =>
      tail := AccessKeyTail();
      TailLettersAccessKey(tail);
    case SecretKey =>
      tail := SecretKeyTail();
      TailLettersSecretKey(tail);
    case SessionToken =>
      tail := SessionTokenTail();
      TailLettersSessionToken(tail);
    case Region =>
      tail := RegionTail();
      TailLettersRegion(tail);
  }

  lemma {:induction false} AccessKeyTail() returns (tail: string)
    ensures tail == "xport AWS_ACCESS_KEY_ID="
    ensures AccessKeyLine == "e" + tail && |tail| >= 17
  {
    tail := "xport AWS_ACCESS_KEY_ID=";
  }

  lemma {:induction false} TailLettersAccessKey(tail: string)
    requires tail == "xport AWS_ACCESS_KEY_ID="
    ensures 'e' !in tail && '\n' !in tail
  {
  }

  lemma {:induction false} SecretKeyTail() returns (tail: string)
    ensures tail == "xport AWS_SECRET_ACCESS_KEY="
    ensures SecretKeyLine == "e" + tail && |tail| >= 17
  {
    tail := "xport AWS_SECRET_ACCESS_KEY=";
  }

  lemma {:induction false} TailLettersSecretKey(tail: string)
    requires tail == "xport AWS_SECRET_ACCESS_KEY="
    ensures 'e' !in tail && '\n' !in tail
  {
  }

  lemma {:induction false} SessionTokenTail() returns (tail: string)
    ensures tail == "xport AWS_SESSION_TOKEN="
    ensures SessionTokenLine == "e" + tail && |tail| >= 17
  {
    tail := "xport AWS_SESSION_TOKEN=";
  }

  lemma {:induction false} TailLettersSessionToken(tail: string)
    requires tail == "xport AWS_SESSION_TOKEN="
    ensures 'e' !in tail && '\n' !in tail
  {
  }

  lemma {:induction false} RegionTail() returns (tail: string)
    ensures tail == "xport AWS_REGION="
    ensures RegionLine == "e" + tail && |tail| >= 17
  {
    tail := "xport AWS_REGION=";
  }

  lemma {:induction false} TailLettersRegion(tail: string)
    requires tail == "xport AWS_REGION="
    ensures 'e' !in tail && '\n' !in tail
  {
  }

  /** Two distinct prefixes differ at position 11 (the first letter of the name) or, for the secret key and the session token, at 13. */
  lemma {:induction false} PrefixMismatch(k: Kind, k': Kind) returns (i: nat)
    requires k != k'
    ensures i < 18 && Prefix(k)[i] != Prefix(k')[i]
  {
    if (k == SecretKey && k' == SessionToken) || (k == SessionToken && k' == SecretKey) {
      i := 13;
      assert SecretKeyLine[13] == 'C' && SessionTokenLine[13] == 'S';
    } else {
      i := 11;
      assert AccessKeyLine[11] == 'A' && SecretKeyLine[11] == 'S';
      assert SessionTokenLine[11] == 'S' && RegionLine[11] == 'R';
    }
  }

  lemma {:induction false} MismatchNotPrefix(s: string, p: string, i: nat)
    requires i < |p| && i < |s| && s[i] != p[i]
    ensures !HasPrefix(s, p)
  {
    assert |p| <= |s| ==> s[..|p|][i] == s[i];
  }

  /**
   * A fresh line of kind `k` contains another kind's prefix only if its value
   * does: two prefixes differ within their common length, and no prefix can
   * start after the first character of another.
   */
  lemma {:induction false} CandidateOtherPrefix(k: Kind, k': Kind, v: string)
    requires k != k'
    ensures Contains(Prefix(k) + v, Prefix(k')) <==> Contains(v, Prefix(k'))
  {
    var p, p' := Prefix(k), Prefix(k');
    assert !HasPrefix(p + v, p') by {
      PrefixShape(k);
      var i := PrefixMismatch(k, k');
      assert (p + v)[i] == p[i];
      MismatchNotPrefix(p + v, p', i);
    }
    assert Contains(p + v, p') <==> Contains(p[1..] + v, p') by {
      PrefixShape(k);
      assert (p + v)[1..] == p[1..] + v;
    }
    assert Contains(p[1..] + v, p') <==> Contains(v, p') by {
      PrefixShape(k);
      PrefixShape(k');
      ContainsSkip(p[1..], v, p');
    }
  }

  /** A fresh line built from a clean value is classified as its own kind. */
  lemma {:induction false} CandidateClassified(k: Kind, creds: Credentials, region: string)
    requires CleanValue(k, Value(k, creds, region))
    ensures Classify(Candidate(k, creds, region)) == Some(k)
  {
    var v := Value(k, creds, region);
    var line := Candidate(k, creds, region);
    assert Contains(line, Prefix(k));
    if k != AccessKey {
      CandidateOtherPrefix(k, AccessKey, v);
      assert !Contains(line, AccessKeyLine);
    }
    if Rank(k) > 1 {
      CandidateOtherPrefix(k, SecretKey, v);
      assert !Contains(line, SecretKeyLine);
    }
    if k == Region {
      CandidateOtherPrefix(k, SessionToken, v);
      assert !Contains(line, SessionTokenLine);
    }
  }

  lemma {:induction false} CandidateNoNewline(k: Kind, creds: Credentials, region: string)
    requires '\n' !in Value(k, creds, region)
    ensures '\n' !in Candidate(k, creds, region)
  {
    PrefixShape(k);
  }

  /** With clean values, rewriting a line does not change its kind. */
  lemma {:induction false} RewriteKeepsKind(line: string, creds: Credentials, region: string)
    requires CleanValues(creds, region)
    ensures Classify(Rewrite(line, creds, region)) == Classify(line)
  {
    if Classify(line).Some? {
      var k := Classify(line).value;
      assert CleanValue(k, Value(k, creds, region));
      CandidateClassified(k, creds, region);
    }
  }

  lemma {:induction false} EmptyLineUnrecognised()
    ensures Classify("") == None
  {
    forall k ensures !Contains("", Prefix(k)) {
      PrefixShape(k);
      ShortNotContains("", Prefix(k));
    }
  }

  /** The appended lines split back into themselves plus the empty piece after the last newline. */
  lemma {:induction false} SplitTerminated(lines: seq<string>)
    requires forall i :: 0 <= i < |lines| ==> '\n' !in lines[i]
    ensures Split(Terminated(lines)) == lines + [""]
    decreases |lines|
  {
    if lines != [] {
      var t := Terminated(lines[1..]);
      var st := Split("\n" + t);
      assert st == [""] + (lines[1..] + [""]) by {
        SplitTerminated(lines[1..]);
        SplitCons('\n', t);
        assert "\n" + t == ['\n'] + t;
      }
      assert Split(Terminated(lines)) == [lines[0]] + st[1..] by {
        assert Terminated(lines) == lines[0] + ("\n" + t);
        SplitLeading(lines[0], "\n" + t);
        assert lines[0] + st[0] == lines[0];
      }
      assert [lines[0]] + (lines[1..] + [""]) == lines + [""] by {
        assert lines == [lines[0]] + lines[1..];
      }
    }
  }

  lemma {:induction false} TerminatedContains(lines: seq<string>, i: nat, sub: string)
    requires i < |lines| && Contains(lines[i], sub)
    ensures Contains(Terminated(lines), sub)
    decreases |lines|
  {
    var rest := Terminated(lines[1..]);
    assert Terminated(lines) == lines[0] + ("\n" + rest);
    if i == 0 {
      ContainsExtendRight(lines[0], "\n" + rest, sub);
    } else {
      TerminatedContains(lines[1..], i - 1, sub);
      ContainsExtendLeft("\n", rest, sub);
      ContainsExtendLeft(lines[0], "\n" + rest, sub);
    }
  }

  // ---------------------------------------------------------------------------
  // The two paths

  /** An empty file receives the four fresh lines, newline-terminated, in the fixed order. */
  lemma {:induction false} EmptyFile(creds: Credentials, region: string)
    ensures ReconcileContent("", creds, region) ==
            Candidate(AccessKey, creds, region) + "\n" + Candidate(SecretKey, creds, region) + "\n" +
            Candidate(SessionToken, creds, region) + "\n" + Candidate(Region, creds, region) + "\n"
  {
    EmptyLineUnrecognised();
    var lines := Split("");
    assert lines == [""];
    assert !AllFound(lines);
    var ks := [AccessKey, SecretKey, SessionToken, Region];
    assert Missing(lines) == ks;
    var cs := Candidates(ks, creds, region);
    assert cs == [Candidate(AccessKey, creds, region), Candidate(SecretKey, creds, region),
                  Candidate(SessionToken, creds, region), Candidate(Region, creds, region)];
    TerminatedFour(cs[0], cs[1], cs[2], cs[3]);
    assert "" + Terminated(cs) == Terminated(cs);
  }

  lemma {:induction false} TerminatedFour(a: string, b: string, c: string, d: string)
    ensures Terminated([a, b, c, d]) == a + "\n" + b + "\n" + c + "\n" + d + "\n"
  {
    assert [a, b, c, d][1..] == [b, c, d];
    assert [b, c, d][1..] == [c, d];
    assert [c, d][1..] == [d];
    assert [d][1..] == [];
    assert Terminated([d]) == d + "\n" + "";
    assert Terminated([c, d]) == c + "\n" + (d + "\n");
    assert Terminated([b, c, d]) == b + "\n" + (c + "\n" + (d + "\n"));
  }

  /**
   * The full-rewrite path keeps the line structure: the new content has as
   * many lines as the old, every unrecognised line is unchanged at its
   * position, every recognised line is now its kind's fresh line, and a
   * trailing newline is kept.
   */
  lemma {:induction false} FullRewrite(s: string, creds: Credentials, region: string)
    requires NoNewlines(creds, region)
    requires AllFound(Split(s))
    ensures var before, after := Split(s), Split(ReconcileContent(s, creds, region));
            |after| == |before| &&
            (forall i :: 0 <= i < |before| && Classify(before[i]).None? ==> after[i] == before[i]) &&
            (forall i :: 0 <= i < |before| && Classify(before[i]).Some? ==>
               after[i] == Candidate(Classify(before[i]).value, creds, region))
    ensures |s| > 0 && Last(s) == '\n' ==>
            var r := ReconcileContent(s, creds, region); |r| > 0 && Last(r) == '\n'
  {
    var lines := Split(s);
    var out := RewriteAll(lines, creds, region);
    RewrittenSplit(lines, creds, region);
    if |s| > 0 && Last(s) == '\n' {
      DropTrailingNewline(s);
      SplitTrailingNewline(s[..|s| - 1]);
      EmptyLineUnrecognised();
      JoinEndsWithNewline(out);
    }
  }

  /** Rewritten lines of a split text contain no newline, so they split back into themselves. */
  lemma {:induction false} RewrittenSplit(lines: seq<string>, creds: Credentials, region: string)
    requires NoNewlines(creds, region)
    requires |lines| >= 1 && forall i :: 0 <= i < |lines| ==> '\n' !in lines[i]
    ensures Split(Join(RewriteAll(lines, creds, region))) == RewriteAll(lines, creds, region)
  {
    var out := RewriteAll(lines, creds, region);
    forall i | 0 <= i < |out| ensures '\n' !in out[i] {
      if Classify(lines[i]).Some? {
        CandidateNoNewline(Classify(lines[i]).value, creds, region);
      }
    }
    SplitJoin(out);
  }

  /**
   * The append path keeps the old content byte for byte, stale values in
   * recognised lines included, and adds exactly one line per missing kind, in
   * the fixed order; when the old content is empty or ends in a newline, the
   * new lines follow the old ones.
   */
  lemma {:induction false} AppendOnly(s: string, creds: Credentials, region: string)
    requires NoNewlines(creds, region)
    requires !AllFound(Split(s))
    ensures var r := ReconcileContent(s, creds, region);
            HasPrefix(r, s) &&
            Split(r[|s|..]) == Candidates(Missing(Split(s)), creds, region) + [""]
    ensures s == "" || Last(s) == '\n' ==>
            var before, after := Split(s), Split(ReconcileContent(s, creds, region));
            after == before[..|before| - 1] + Candidates(Missing(before), creds, region) + [""]
  {
    var lines := Split(s);
    var a := Appendix(lines, creds, region);
    var r := ReconcileContent(s, creds, region);
    AppendPathContent(s, creds, region);
    assert r[..|s|] == s && r[|s|..] == a;
    AppendixSplit(lines, creds, region);
    if s == "" || Last(s) == '\n' {
      SplitAfterNewline(s, a);
    }
  }

  lemma {:induction false} AppendPathContent(s: string, creds: Credentials, region: string)
    requires !AllFound(Split(s))
    ensures ReconcileContent(s, creds, region) == s + Appendix(Split(s), creds, region)
  {
  }

  lemma {:induction false} AppendixSplit(lines: seq<string>, creds: Credentials, region: string)
    requires NoNewlines(creds, region)
    ensures Split(Appendix(lines, creds, region)) == Candidates(Missing(lines), creds, region) + [""]
  {
    var cands := Candidates(Missing(lines), creds, region);
    forall i | 0 <= i < |cands| ensures '\n' !in cands[i] {
      CandidateNoNewline(Missing(lines)[i], creds, region);
    }
    SplitTerminated(cands);
  }

  lemma {:induction false} FullPathContent(s: string, creds: Credentials, region: string)
    requires AllFound(Split(s))
    ensures ReconcileContent(s, creds, region) == Join(RewriteAll(Split(s), creds, region))
  {
  }

  lemma {:induction false} CleanHasNoNewlines(creds: Credentials, region: string)
    requires CleanValues(creds, region)
    ensures NoNewlines(creds, region)
  {
    forall k ensures '\n' !in Value(k, creds, region) {
      assert CleanValue(k, Value(k, creds, region));
    }
  }

  /** With clean values, rewriting keeps every kind that was found. */
  lemma {:induction false} RewriteKeepsFound(lines: seq<string>, creds: Credentials, region: string, k: Kind)
    requires CleanValues(creds, region)
    requires Found(lines, k)
    ensures Found(RewriteAll(lines, creds, region), k)
  {
    var i :| 0 <= i < |lines| && Classify(lines[i]) == Some(k);
    RewriteKeepsKind(lines[i], creds, region);
    assert Classify(RewriteAll(lines, creds, region)[i]) == Some(k);
  }

  /**
   * A file whose four kinds are all present and whose recognised lines are
   * already the fresh lines is left byte for byte as it is.
   */
  lemma {:induction false} FixedPoint(s: string, creds: Credentials, region: string)
    requires AllFound(Split(s))
    requires forall i :: 0 <= i < |Split(s)| ==> Rewrite(Split(s)[i], creds, region) == Split(s)[i]
    ensures ReconcileContent(s, creds, region) == s
  {
    var lines := Split(s);
    assert RewriteAll(lines, creds, region) == lines;
    JoinSplit(s);
  }

  /**
   * On the full-rewrite path a second run with the same values changes
   * nothing: every fresh line is recognised as its own kind again.
   */
  lemma {:induction false} Idempotent(s: string, creds: Credentials, region: string)
    requires CleanValues(creds, region)
    requires AllFound(Split(s))
    ensures var once := ReconcileContent(s, creds, region);
            ReconcileContent(once, creds, region) == once
  {
    var lines := Split(s);
    var out := RewriteAll(lines, creds, region);
    var once := ReconcileContent(s, creds, region);
    assert Split(once) == out by {
      FullPathContent(s, creds, region);
      CleanHasNoNewlines(creds, region);
      RewrittenSplit(lines, creds, region);
    }
    assert AllFound(out) by {
      RewriteKeepsFound(lines, creds, region, AccessKey);
      RewriteKeepsFound(lines, creds, region, SecretKey);
      RewriteKeepsFound(lines, creds, region, SessionToken);
      RewriteKeepsFound(lines, creds, region, Region);
    }
    assert forall i :: 0 <= i < |out| ==> Rewrite(out[i], creds, region) == out[i] by {
      RewrittenAreFresh(lines, creds, region);
    }
    FixedPoint(once, creds, region);
  }

  /** With clean values, a rewritten line is left as it is by a second rewrite. */
  lemma {:induction false} RewrittenAreFresh(lines: seq<string>, creds: Credentials, region: string)
    requires CleanValues(creds, region)
    ensures var out := RewriteAll(lines, creds, region);
            forall i :: 0 <= i < |out| ==> Rewrite(out[i], creds, region) == out[i]
  {
    var out := RewriteAll(lines, creds, region);
    forall i | 0 <= i < |out| ensures Rewrite(out[i], creds, region) == out[i] {
      RewriteKeepsKind(lines[i], creds, region);
    }
  }

  /**
   * After one run on a file that is empty or ends in a newline (or that
   * already holds all four kinds), all four kinds are present as lines of
   * their own, provided no value holds a newline or another kind's prefix.
   */
  lemma {:induction false} AllKindsAfterRun(s: string, creds: Credentials, region: string)
    requires CleanValues(creds, region)
    requires s == "" || Last(s) == '\n' || AllFound(Split(s))
    ensures AllFound(Split(ReconcileContent(s, creds, region)))
  {
    var lines := Split(s);
    CleanHasNoNewlines(creds, region);
    if AllFound(lines) {
      FullPathContent(s, creds, region);
      RewrittenSplit(lines, creds, region);
      RewriteKeepsFound(lines, creds, region, AccessKey);
      RewriteKeepsFound(lines, creds, region, SecretKey);
      RewriteKeepsFound(lines, creds, region, SessionToken);
      RewriteKeepsFound(lines, creds, region, Region);
    } else {
      AppendOnly(s, creds, region);
      EmptyTail(s);
      AppendedFound(s, creds, region, AccessKey);
      AppendedFound(s, creds, region, SecretKey);
      AppendedFound(s, creds, region, SessionToken);
      AppendedFound(s, creds, region, Region);
    }
  }

  /** The last piece of a text that is empty or ends in a newline is empty. */
  lemma {:induction false} EmptyTail(s: string)
    requires s == "" || Last(s) == '\n'
    ensures Last(Split(s)) == ""
  {
    if s != "" {
      DropTrailingNewline(s);
      SplitTrailingNewline(s[..|s| - 1]);
    }
  }

  lemma {:induction false} AppendedFound(s: string, creds: Credentials, region: string, k: Kind)
    requires CleanValues(creds, region)
    requires !AllFound(Split(s))
    requires Last(Split(s)) == ""
    requires var before := Split(s);
             Split(ReconcileContent(s, creds, region)) ==
             before[..|before| - 1] + Candidates(Missing(before), creds, region) + [""]
    ensures Found(Split(ReconcileContent(s, creds, region)), k)
  {
    var before := Split(s);
    var n := |before|;
    var cands := Candidates(Missing(before), creds, region);
    var after := Split(ReconcileContent(s, creds, region));
    MissingKinds(before);
    EmptyLineUnrecognised();
    if Found(before, k) {
      var i :| 0 <= i < n && Classify(before[i]) == Some(k);
      assert i < n - 1;
      assert after[i] == before[i];
    } else {
      var j :| 0 <= j < |Missing(before)| && Missing(before)[j] == k;
      assert after[n - 1 + j] == cands[j] == Candidate(k, creds, region);
      assert CleanValue(k, Value(k, creds, region));
      CandidateClassified(k, creds, region);
    }
  }

  /**
   * Runs on a file that is empty or ends in a newline settle after two: the
   * second run takes the full-rewrite path, and a third changes nothing.
   */
  lemma {:induction false} Converges(s: string, creds: Credentials, region: string)
    requires CleanValues(creds, region)
    requires s == "" || Last(s) == '\n'
    ensures var once := ReconcileContent(s, creds, region);
            var twice := ReconcileContent(once, creds, region);
            AllFound(Split(once)) && ReconcileContent(twice, creds, region) == twice
  {
    var once := ReconcileContent(s, creds, region);
    AllKindsAfterRun(s, creds, region);
    Idempotent(once, creds, region);
  }

  /** Whatever the old content and the values, every prefix occurs in the new content. */
  lemma {:induction false} PrefixesPresent(s: string, creds: Credentials, region: string, k: Kind)
    ensures Contains(ReconcileContent(s, creds, region), Prefix(k))
  {
    var lines := Split(s);
    assert Contains(Candidate(k, creds, region), Prefix(k));
    if AllFound(lines) {
      FullPathContent(s, creds, region);
      var out := RewriteAll(lines, creds, region);
      var i :| 0 <= i < |lines| && Classify(lines[i]) == Some(k);
      assert out[i] == Candidate(k, creds, region);
      JoinContains(out, i, Prefix(k));
    } else {
      AppendPathContent(s, creds, region);
      var a := Appendix(lines, creds, region);
      if Found(lines, k) {
        var i :| 0 <= i < |lines| && Classify(lines[i]) == Some(k);
        ClassifyFirstMatch(lines[i]);
        JoinContains(lines, i, Prefix(k));
        JoinSplit(s);
        ContainsExtendRight(s, a, Prefix(k));
      } else {
        MissingKinds(lines);
        var ks := Missing(lines);
        var j :| 0 <= j < |ks| && ks[j] == k;
        TerminatedContains(Candidates(ks, creds, region), j, Prefix(k));
        ContainsExtendLeft(s, a, Prefix(k));
      }
    }
  }

  /** The line the append path writes for kind `k`, or nothing when `k` was found. */
  function AppendedLine(lines: seq<string>, k: Kind, creds: Credentials, region: string): string
  {
    if Found(lines, k) then "" else Candidate(k, creds, region) + "\n"
  }

  lemma {:induction false} TerminatedConcat(a: seq<string>, b: seq<string>)
    ensures Terminated(a + b) == Terminated(a) + Terminated(b)
    decreases |a|
  {
    if a != [] {
      assert (a + b)[1..] == a[1..] + b;
      TerminatedConcat(a[1..], b);
    } else {
      assert a + b == b;
    }
  }

  lemma {:induction false} CandidatesConcat(a: seq<Kind>, b: seq<Kind>, creds: Credentials, region: string)
    ensures Candidates(a + b, creds, region) == Candidates(a, creds, region) + Candidates(b, creds, region)
  {
  }

  /** What one kind contributes to the appended text. */
  function MissingOne(lines: seq<string>, k: Kind): seq<Kind>
  {
    if Found(lines, k) then [] else [k]
  }

  lemma {:induction false} MissingOneAppended(lines: seq<string>, k: Kind, creds: Credentials, region: string)
    ensures Terminated(Candidates(MissingOne(lines, k), creds, region)) == AppendedLine(lines, k, creds, region)
  {
    if !Found(lines, k) {
      assert Candidates([k], creds, region) == [Candidate(k, creds, region)];
      assert Terminated([Candidate(k, creds, region)]) == Candidate(k, creds, region) + "\n" + "";
    } else {
      assert Candidates([], creds, region) == [];
    }
  }

  lemma {:induction false} TerminatedCandidatesConcat(a: seq<Kind>, b: seq<Kind>, creds: Credentials, region: string)
    ensures Terminated(Candidates(a + b, creds, region)) ==
            Terminated(Candidates(a, creds, region)) + Terminated(Candidates(b, creds, region))
  {
    CandidatesConcat(a, b, creds, region);
    TerminatedConcat(Candidates(a, creds, region), Candidates(b, creds, region));
  }

  /** The appended text is the four kinds' appended lines, one after the other, in order. */
  lemma {:induction false} AppendixInOrder(lines: seq<string>, creds: Credentials, region: string)
    ensures Appendix(lines, creds, region) ==
            AppendedLine(lines, AccessKey, creds, region) + AppendedLine(lines, SecretKey, creds, region) +
            AppendedLine(lines, SessionToken, creds, region) + AppendedLine(lines, Region, creds, region)
  {
    var a, b := MissingOne(lines, AccessKey), MissingOne(lines, SecretKey);
    var c, d := MissingOne(lines, SessionToken), MissingOne(lines, Region);
    assert Missing(lines) == a + b + c + d;
    TerminatedCandidatesConcat(a + b + c, d, creds, region);
    TerminatedCandidatesConcat(a + b, c, creds, region);
    TerminatedCandidatesConcat(a, b, creds, region);
    MissingOneAppended(lines, AccessKey, creds, region);
    MissingOneAppended(lines, SecretKey, creds, region);
    MissingOneAppended(lines, SessionToken, creds, region);
    MissingOneAppended(lines, Region, creds, region);
  }

  /**
   * The new content in the order the code writes it: the body (rewritten
   * when every kind is found, kept otherwise), then the appended text, which
   * is empty when every kind is found.
   */
  lemma {:induction false} ReconcileInWriteOrder(content: string, creds: Credentials, region: string)
    ensures var lines := Split(content);
            ReconcileContent(content, creds, region) ==
            (if AllFound(lines) then Join(RewriteAll(lines, creds, region)) else content) +
            Appendix(lines, creds, region)
  {
    var lines := Split(content);
    if AllFound(lines) {
      assert Missing(lines) == [];
      assert Appendix(lines, creds, region) == "";
    }
  }
}
