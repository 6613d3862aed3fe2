/**
 * The functions of Go's `strings` package that cmd/awsconf.go relies on
 * (`Contains`, `Split` and `Join` on "\n", `TrimSpace`), over `seq<char>`,
 * with the prefix test `HasPrefix` that `Contains` is defined by, together with
 * the facts about them that the dotfile reconciliation needs:
 * `Join(Split(s)) == s`, its converse for lines without a newline, how `Split`
 * distributes over concatenation, and where `Contains` can find a substring.
 */
module GoStrings {

  /** `s` starts with `p`: the prefix test `Contains` is defined by. */
  predicate HasPrefix(s: string, p: string)
  {
    |p| <= |s| && s[..|p|] == p
  }

  /** `strings.Contains(s, sub)`: some suffix of `s` starts with `sub`. */
  predicate Contains(s: string, sub: string)
    decreases |s|
  {
    HasPrefix(s, sub) || (|s| > 0 && Contains(s[1..], sub))
  }

  /** Reference definition of `Contains`: `sub` occurs at some position of `s`. */
  ghost predicate OccursAt(s: string, sub: string, i: int)
  {
    0 <= i && i + |sub| <= |s| && s[i..i + |sub|] == sub
  }

  lemma {:induction false} ContainsIffOccurs(s: string, sub: string)
    ensures Contains(s, sub) <==> exists i :: OccursAt(s, sub, i)
  {
    if Contains(s, sub) {
      var i := ContainsWitness(s, sub);
    }
    forall i | OccursAt(s, sub, i) ensures Contains(s, sub) {
      OccursContains(s, sub, i);
    }
  }

  lemma {:induction false} ContainsWitness(s: string, sub: string) returns (i: nat)
    requires Contains(s, sub)
    ensures OccursAt(s, sub, i)
    decreases |s|
  {
    if HasPrefix(s, sub) {
      i := 0;
    } else {
      var j := ContainsWitness(s[1..], sub);
      assert s[j + 1..j + 1 + |sub|] == s[1..][j..j + |sub|];
      i := j + 1;
    }
  }

  lemma {:induction false} OccursContains(s: string, sub: string, i: int)
    requires OccursAt(s, sub, i)
    ensures Contains(s, sub)
    decreases i
  {
    if i > 0 {
      assert s[1..][i - 1..i - 1 + |sub|] == s[i..i + |sub|];
      OccursContains(s[1..], sub, i - 1);
    }
  }

  /** A string shorter than `sub` cannot contain it. */
  lemma {:induction false} ShortNotContains(s: string, sub: string)
    requires |s| < |sub|
    ensures !Contains(s, sub)
    decreases |s|
  {
    if |s| > 0 {
      ShortNotContains(s[1..], sub);
    }
  }

  /** Whatever `a` contains, `a + b` contains. */
  lemma {:induction false} ContainsExtendRight(a: string, b: string, sub: string)
    requires Contains(a, sub)
    ensures Contains(a + b, sub)
    decreases |a|
  {
    if HasPrefix(a, sub) {
      assert (a + b)[..|sub|] == a[..|sub|];
    } else {
      assert (a + b)[1..] == a[1..] + b;
      ContainsExtendRight(a[1..], b, sub);
    }
  }

  /** Whatever `b` contains, `a + b` contains. */
  lemma {:induction false} ContainsExtendLeft(a: string, b: string, sub: string)
    requires Contains(b, sub)
    ensures Contains(a + b, sub)
    decreases |a|
  {
    if a == [] {
      assert a + b == b;
    } else {
      assert (a + b)[1..] == a[1..] + b;
      ContainsExtendLeft(a[1..], b, sub);
    }
  }

  /**
   * No occurrence of `sub` can start inside a text `d` that lacks the first
   * character of `sub`, so such a text in front of `v` does not change
   * whether `sub` is contained.
   */
  lemma {:induction false} ContainsSkip(d: string, v: string, sub: string)
    requires |sub| > 0 && sub[0] !in d
    ensures Contains(d + v, sub) <==> Contains(v, sub)
    decreases |d|
  {
    if d == [] {
      assert d + v == v;
    } else {
      assert (d + v)[0] == d[0];
      assert !HasPrefix(d + v, sub);
      assert (d + v)[1..] == d[1..] + v;
      assert sub[0] !in d[1..] by {
        forall c | c in d[1..] ensures c in d {
          var j :| 0 <= j < |d[1..]| && d[1..][j] == c;
          assert d[j + 1] == c;
        }
      }
      ContainsSkip(d[1..], v, sub);
    }
  }

  /** The last element of a non-empty sequence. */
  function Last<T>(xs: seq<T>): T
    requires |xs| > 0
  {
    xs[|xs| - 1]
  }

  /** A text that ends in a newline is the text before it followed by the newline. */
  lemma {:induction false} DropTrailingNewline(s: string)
    requires |s| > 0 && Last(s) == '\n'
    ensures s == s[..|s| - 1] + "\n"
  {
  }

  /**
   * `strings.Split(s, "\n")`: the pieces of `s` between newlines. Like Go's,
   * it never returns an empty slice (`Split("") == [""]`), has one more piece
   * than `s` has newlines, and no piece holds a newline.
   */
  function Split(s: string): (lines: seq<string>)
    ensures |lines| >= 1
    ensures forall i :: 0 <= i < |lines| ==> '\n' !in lines[i]
    decreases |s|
  {
    if s == [] then [""]
    else
      assert s == [s[0]] + s[1..];
      var rest := Split(s[1..]);
      if s[0] == '\n' then [""] + rest
      else [[s[0]] + rest[0]] + rest[1..]
  }

  /** `strings.Join(lines, "\n")`. */
  function Join(lines: seq<string>): string
  {
    if |lines| == 0 then ""
    else if |lines| == 1 then lines[0]
    else lines[0] + "\n" + Join(lines[1..])
  }

  /** Splitting on newlines and joining with newlines gives back the text. */
  lemma {:induction false} JoinSplit(s: string)
    ensures Join(Split(s)) == s
    decreases |s|
  {
    if s != [] {
      var rest := Split(s[1..]);
      JoinSplit(s[1..]);
      if s[0] == '\n' {
        assert Split(s) == [""] + rest;
        assert Split(s)[1..] == rest;
      } else if |rest| == 1 {
        assert Split(s) == [[s[0]] + rest[0]];
      } else {
        assert Split(s)[1..] == rest[1..];
        assert Join(rest) == rest[0] + "\n" + Join(rest[1..]);
      }
    }
  }

  /** How `Split` treats the first character of a text. */
  lemma {:induction false} SplitCons(c: char, s: string)
    ensures Split([c] + s) ==
            if c == '\n' then [""] + Split(s) else [[c] + Split(s)[0]] + Split(s)[1..]
  {
    assert ([c] + s)[1..] == s;
  }

  /** A text without a newline in front of `t` only extends the first piece of `t`. */
  lemma {:induction false} SplitLeading(a: string, t: string)
    requires '\n' !in a
    ensures Split(a + t) == [a + Split(t)[0]] + Split(t)[1..]
    decreases |a|
  {
    if a == [] {
      assert a + t == t;
      assert a + Split(t)[0] == Split(t)[0];
    } else {
      assert a + t == [a[0]] + (a[1..] + t);
      assert a == [a[0]] + a[1..];
      SplitLeading(a[1..], t);
      SplitCons(a[0], a[1..] + t);
      assert [a[0]] + (a[1..] + Split(t)[0]) == a + Split(t)[0];
    }
  }

  /** Joining newline-free lines and splitting again gives back the lines. */
  lemma {:induction false} SplitJoin(lines: seq<string>)
    requires |lines| >= 1
    requires forall i :: 0 <= i < |lines| ==> '\n' !in lines[i]
    ensures Split(Join(lines)) == lines
    decreases |lines|
  {
    if |lines| == 1 {
      SplitLeading(lines[0], "");
      assert lines[0] + "" == lines[0];
    } else {
      var t := Join(lines[1..]);
      SplitJoin(lines[1..]);
      assert Join(lines) == lines[0] + ("\n" + t);
      SplitLeading(lines[0], "\n" + t);
      assert ("\n" + t)[1..] == t;
      assert Split("\n" + t) == [""] + Split(t);
      assert lines[0] + "" == lines[0];
    }
  }

  /**
   * `Split` distributes over concatenation: the last piece of `a` and the
   * first piece of `b` fuse into one line, every other piece is kept.
   */
  lemma {:induction false} SplitAppend(a: string, b: string)
    ensures Split(a + b) == Fuse(Split(a), Split(b))
    decreases |a|
  {
    if a == [] {
      assert a + b == b;
      assert Split(a) == [""];
      assert "" + Split(b)[0] == Split(b)[0];
      assert [Split(b)[0]] + Split(b)[1..] == Split(b);
    } else {
      var c, a' := a[0], a[1..];
      assert a == [c] + a';
      assert a + b == [c] + (a' + b);
      SplitAppend(a', b);
      SplitCons(c, a');
      SplitCons(c, a' + b);
      FuseCons(c, Split(a'), Split(b));
    }
  }

  /** The pieces of `a + b` built from those of `a` and of `b`. */
  function Fuse(sa: seq<string>, sb: seq<string>): seq<string>
    requires |sa| >= 1 && |sb| >= 1
  {
    sa[..|sa| - 1] + [Last(sa) + sb[0]] + sb[1..]
  }

  /** After a trailing newline nothing fuses: the pieces of `b` follow those of `a`. */
  lemma {:induction false} FuseAfterNewline(sa: seq<string>, sb: seq<string>)
    requires |sa| >= 1 && |sb| >= 1 && Last(sa) == ""
    ensures Fuse(sa, sb) == sa[..|sa| - 1] + sb
  {
    assert "" + sb[0] == sb[0];
    assert [sb[0]] + sb[1..] == sb;
  }

  lemma {:induction false} FuseCons(c: char, sa: seq<string>, sb: seq<string>)
    requires |sa| >= 1 && |sb| >= 1
    ensures var r := Fuse(sa, sb);
            var sa1 := if c == '\n' then [""] + sa else [[c] + sa[0]] + sa[1..];
            (if c == '\n' then [""] + r else [[c] + r[0]] + r[1..]) == Fuse(sa1, sb)
  {
    var r := Fuse(sa, sb);
    if c == '\n' {
      assert ([""] + sa)[..|sa|] == [""] + sa[..|sa| - 1];
    } else if |sa| == 1 {
      assert r == [sa[0] + sb[0]] + sb[1..];
      assert r[1..] == sb[1..];
      assert [c] + r[0] == ([c] + sa[0]) + sb[0];
      assert ([[c] + sa[0]] + sa[1..]) == [[c] + sa[0]];
    } else {
      assert r[0] == sa[0];
      assert r[1..] == sa[1..|sa| - 1] + [Last(sa) + sb[0]] + sb[1..];
      assert ([[c] + sa[0]] + sa[1..])[..|sa| - 1] == [[c] + sa[0]] + sa[1..|sa| - 1];
    }
  }

  /** A text that ends in a newline splits into its lines and one empty last piece. */
  lemma {:induction false} SplitTrailingNewline(x: string)
    ensures |Split(x + "\n")| == |Split(x)| + 1
    ensures Split(x + "\n")[..|Split(x)|] == Split(x)
    ensures Last(Split(x + "\n")) == ""
  {
    var sx := Split(x);
    SplitAppend(x, "\n");
    assert Split(x + "\n") == sx[..|sx| - 1] + [Last(sx) + Split("\n")[0]] + Split("\n")[1..];
    SplitCons('\n', "");
    assert "\n" == ['\n'] + "";
    assert Last(sx) + "" == Last(sx);
    assert sx[..|sx| - 1] + [Last(sx)] == sx;
  }

  /** Text added after a trailing newline (or to nothing) starts a line of its own. */
  lemma {:induction false} SplitAfterNewline(s: string, a: string)
    requires s == "" || Last(s) == '\n'
    ensures Split(s + a) == Split(s)[..|Split(s)| - 1] + Split(a)
  {
    SplitAppend(s, a);
    if s != "" {
      DropTrailingNewline(s);
      SplitTrailingNewline(s[..|s| - 1]);
    }
    FuseAfterNewline(Split(s), Split(a));
  }

  /** Joining lines whose last one is empty leaves a trailing newline. */
  lemma {:induction false} JoinEndsWithNewline(lines: seq<string>)
    requires |lines| >= 2 && Last(lines) == ""
    ensures |Join(lines)| > 0 && Last(Join(lines)) == '\n'
    decreases |lines|
  {
    if |lines| > 2 {
      JoinEndsWithNewline(lines[1..]);
    }
  }

  /** A newline-free line is contained in any join of lines that includes it. */
  lemma {:induction false} JoinContains(lines: seq<string>, i: nat, sub: string)
    requires i < |lines| && Contains(lines[i], sub)
    ensures Contains(Join(lines), sub)
    decreases |lines|
  {
    if |lines| > 1 {
      if i == 0 {
        ContainsExtendRight(lines[0], "\n" + Join(lines[1..]), sub);
        assert lines[0] + "\n" + Join(lines[1..]) == lines[0] + ("\n" + Join(lines[1..]));
      } else {
        JoinContains(lines[1..], i - 1, sub);
        ContainsExtendLeft(lines[0] + "\n", Join(lines[1..]), sub);
      }
    }
  }

  /**
   * Go's `unicode.IsSpace`, the test `strings.TrimSpace` trims by: the six
   * ASCII white-space characters, U+0085 and U+00A0, and the other Unicode
   * `White_Space` characters.
   */
  predicate IsSpace(c: char)
  {
    c == '\t' || c == '\n' || c == '\U{000B}' || c == '\U{000C}' || c == '\r' || c == ' ' ||
    c == '\U{0085}' || c == '\U{00A0}' || c == '\U{1680}' ||
    ('\U{2000}' <= c <= '\U{200A}') ||
    c == '\U{2028}' || c == '\U{2029}' || c == '\U{202F}' || c == '\U{205F}' || c == '\U{3000}'
  }

  /** Every character of `s` is white space (the empty string included). */
  predicate IsBlank(s: string)
  {
    forall i :: 0 <= i < |s| ==> IsSpace(s[i])
  }

  function TrimLeftSpace(s: string): (r: string)
    ensures |r| <= |s| && r == s[|s| - |r|..]
    ensures r == [] || !IsSpace(r[0])
    ensures IsBlank(s[..|s| - |r|])
    decreases |s|
  {
    if s != [] && IsSpace(s[0]) then
      var r := TrimLeftSpace(s[1..]);
      assert s[1..][..|s| - 1 - |r|] == s[1..|s| - |r|];
      r
    else s
  }

  function TrimRightSpace(s: string): (r: string)
    ensures |r| <= |s| && r == s[..|r|]
    ensures r == [] || !IsSpace(Last(r))
    ensures IsBlank(s[|r|..])
    decreases |s|
  {
    if s != [] && IsSpace(Last(s)) then
      var r := TrimRightSpace(s[..|s| - 1]);
      assert s[..|s| - 1][|r|..] == s[|r|..|s| - 1];
      r
    else s
  }

  /** `strings.TrimSpace(s)`: `s` without its leading and trailing white space. */
  function TrimSpace(s: string): string
  {
    TrimRightSpace(TrimLeftSpace(s))
  }

  /** `strings.TrimSpace(s) != ""` exactly when some character of `s` is not white space. */
  lemma {:induction false} TrimSpaceEmptyIffBlank(s: string)
    ensures TrimSpace(s) == "" <==> IsBlank(s)
  {
    var l := TrimLeftSpace(s);
    if TrimSpace(s) == "" {
      assert IsBlank(l) by {
        assert l[|TrimRightSpace(l)|..] == l;
      }
      assert l == [];
      assert s[..|s| - |l|] == s;
    }
    if IsBlank(s) {
      assert IsBlank(s[|s| - |l|..]);
    }
  }
}
