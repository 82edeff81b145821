/**
 * The pieces of Rust's `str` API that the release-notes tool relies on:
 * `char::is_whitespace`, `str::starts_with`, `str::lines` and
 * `str::split_whitespace`, written as functions on `seq<char>` together with
 * the facts about them that the rest of the model uses.
 */
module RustStr {

  datatype Option<T> = None | Some(value: T)

  /** `char::is_whitespace`: the characters with the Unicode White_Space property. */
  predicate IsWhitespace(c: char) {
    ('\t' <= c <= '\r') || c == ' ' || c == '\U{0085}' || c == '\U{00A0}' || c == '\U{1680}'
    || ('\U{2000}' <= c <= '\U{200A}') || c == '\U{2028}' || c == '\U{2029}'
    || c == '\U{202F}' || c == '\U{205F}' || c == '\U{3000}'
  }

  predicate NoWhitespace(s: string) {
    forall i :: 0 <= i < |s| ==> !IsWhitespace(s[i])
  }

  predicate AllWhitespace(s: string) {
    forall i :: 0 <= i < |s| ==> IsWhitespace(s[i])
  }

  /** A non-empty run of characters none of which is whitespace: one argument or one tag name. */
  predicate IsWord(s: string) {
    s != [] && NoWhitespace(s)
  }

  /** `s.starts_with(p)` for a string pattern. */
  predicate StartsWith(s: string, p: string) {
    |p| <= |s| && s[..|p|] == p
  }

  // ---------------------------------------------------------------------
  // str::lines
  // ---------------------------------------------------------------------

  /** Index of the first '\n' in `s`, or `|s|` when there is none. */
  function NewlineIndex(s: string): (k: nat)
    ensures k <= |s|
    ensures forall i :: 0 <= i < k ==> s[i] != '\n'
    ensures k < |s| ==> s[k] == '\n'
  {
    if s == [] || s[0] == '\n' then 0 else 1 + NewlineIndex(s[1..])
  }

  /** Drops one trailing '\r', as `str::lines` does for a line ended by "\r\n". */
  function StripCarriageReturn(line: string): string {
    if line != [] && line[|line| - 1] == '\r' then line[..|line| - 1] else line
  }

  /**
   * `s.lines()`: the pieces of `s` between '\n' characters; a piece that was
   * ended by '\n' loses one trailing '\r'; a final '\n' does not produce an
   * empty last line, and the empty string has no lines at all.
   */
  function Lines(s: string): (r: seq<string>)
    ensures r == [] <==> s == []
    decreases |s|
  {
    if s == [] then []
    else
      var k := NewlineIndex(s);
      if k == |s| then [s]
      else [StripCarriageReturn(s[..k])] + Lines(s[k + 1..])
  }

  /** No line that `lines` yields contains a '\n'. */
  lemma {:induction false} LinesHaveNoNewline(s: string)
    ensures forall i :: 0 <= i < |Lines(s)| ==> '\n' !in Lines(s)[i]
    decreases |s|
  {
    if s != [] {
      var k := NewlineIndex(s);
      if k < |s| {
        LinesHaveNoNewline(s[k + 1..]);
        var line := StripCarriageReturn(s[..k]);
        assert forall c :: c in line ==> c in s[..k];
      }
    }
  }

  /** Every line followed by "\n", all concatenated: the text `push_str(line); push_str("\n")` builds. */
  function Unlines(ls: seq<string>): string
  {
    if ls == [] then "" else Unlines(ls[..|ls| - 1]) + ls[|ls| - 1] + "\n"
  }

  lemma {:induction false} UnlinesCons(l: string, ls: seq<string>)
    ensures Unlines([l] + ls) == l + "\n" + Unlines(ls)
    decreases |ls|
  {
    if ls == [] {
      assert [l] + ls == [l];
      assert ([l] + ls)[..0] == [];
    } else {
      var front := ls[..|ls| - 1];
      assert ([l] + ls)[..|ls|] == [l] + front;
      UnlinesCons(l, front);
    }
  }

  /** The text built for a non-empty list of lines begins with its first line and a '\n'. */
  lemma UnlinesStartsWithFirst(ls: seq<string>)
    requires ls != []
    ensures StartsWith(Unlines(ls), ls[0] + "\n")
  {
    UnlinesCons(ls[0], ls[1..]);
    assert [ls[0]] + ls[1..] == ls;
  }

  lemma NewlineIndexAt(a: string, b: string)
    requires '\n' !in a
    ensures NewlineIndex(a + "\n" + b) == |a|
  {
    var s := a + "\n" + b;
    var k := NewlineIndex(s);
    assert s[|a|] == '\n';
  }

  /** Splitting the text of well-formed lines gives those lines back. */
  lemma {:induction false} LinesOfUnlines(ls: seq<string>)
    requires forall i :: 0 <= i < |ls| ==> '\n' !in ls[i]
    requires forall i :: 0 <= i < |ls| ==> ls[i] == [] || ls[i][|ls[i]| - 1] != '\r'
    ensures Lines(Unlines(ls)) == ls
    decreases |ls|
  {
    if ls != [] {
      var rest := ls[1..];
      UnlinesCons(ls[0], rest);
      assert [ls[0]] + rest == ls;
      var s := Unlines(ls);
      assert s == ls[0] + "\n" + Unlines(rest);
      NewlineIndexAt(ls[0], Unlines(rest));
      var k := NewlineIndex(s);
      assert s[..k] == ls[0];
      assert s[k + 1..] == Unlines(rest);
      LinesOfUnlines(rest);
    }
  }

  /** True when no '\r' stands directly before a '\n' in `s`. */
  ghost predicate NoCarriageReturnBeforeNewline(s: string) {
    forall i, j :: 0 <= i < j < |s| && j == i + 1 ==> !(s[i] == '\r' && s[j] == '\n')
  }

  lemma NoCarriageReturnSuffix(s: string, n: nat)
    requires n <= |s| && NoCarriageReturnBeforeNewline(s)
    ensures NoCarriageReturnBeforeNewline(s[n..])
  {
    var rest := s[n..];
    forall i, j | 0 <= i < j < |rest| && j == i + 1 ensures !(rest[i] == '\r' && rest[j] == '\n') {
      assert rest[i] == s[n + i] && rest[j] == s[n + j];
    }
  }

  /** Text ending with '\n' is its first line, that '\n', and a rest that is empty or again ends with '\n'. */
  lemma FirstLineSplit(s: string)
    requires s != [] && s[|s| - 1] == '\n'
    ensures NewlineIndex(s) < |s|
    ensures s == s[..NewlineIndex(s)] + "\n" + s[NewlineIndex(s) + 1..]
    ensures var rest := s[NewlineIndex(s) + 1..]; rest == [] || rest[|rest| - 1] == '\n'
  {
    var k := NewlineIndex(s);
    assert k < |s|;
  }

  /** A first line not ended by "\r\n" is kept unchanged by `lines`. */
  lemma FirstLineKept(s: string, k: nat)
    requires k == NewlineIndex(s) < |s|
    requires k == 0 || s[k - 1] != '\r'
    ensures Lines(s) == [s[..k]] + Lines(s[k + 1..])
  {
    assert StripCarriageReturn(s[..k]) == s[..k] by {
      assert k > 0 ==> s[..k][k - 1] == s[k - 1];
    }
  }

  /**
   * For text that is empty or ends with '\n' and uses bare "\n" line endings,
   * as `git log` prints, re-joining its lines gives back exactly the text.
   */
  lemma {:induction false} UnlinesOfLines(s: string)
    requires s == [] || s[|s| - 1] == '\n'
    requires NoCarriageReturnBeforeNewline(s)
    ensures Unlines(Lines(s)) == s
    decreases |s|
  {
    if s != [] {
      FirstLineSplit(s);
      var k := NewlineIndex(s);
      assert k == 0 || s[k - 1] != '\r' by {
        assert k > 0 ==> !(s[k] == '\n' && s[k - 1] == '\r');
      }
      FirstLineKept(s, k);
      var line, rest := s[..k], s[k + 1..];
      NoCarriageReturnSuffix(s, k + 1);
      UnlinesOfLines(rest);
      UnlinesCons(line, Lines(rest));
    }
  }

  // ---------------------------------------------------------------------
  // str::split_whitespace
  // ---------------------------------------------------------------------

  /** Length of the run of non-whitespace characters at the start of `s`. */
  function TokenLength(s: string): (k: nat)
    ensures k <= |s|
    ensures k < |s| ==> IsWhitespace(s[k])
  {
    if s == [] || IsWhitespace(s[0]) then 0 else 1 + TokenLength(s[1..])
  }

  /** The run `TokenLength` measures holds no whitespace, so it is a word when it is not empty. */
  lemma {:induction false} TokenIsRun(s: string)
    ensures NoWhitespace(s[..TokenLength(s)])
    decreases |s|
  {
    if s != [] && !IsWhitespace(s[0]) {
      TokenIsRun(s[1..]);
      var k := TokenLength(s);
      forall i | 0 <= i < k ensures !IsWhitespace(s[..k][i]) {
        if i > 0 { assert s[..k][i] == s[1..][..k - 1][i - 1]; }
      }
    }
  }

  /** A text without whitespace is one run from start to end. */
  lemma {:induction false} TokenLengthOfRun(s: string)
    requires NoWhitespace(s)
    ensures TokenLength(s) == |s|
    decreases |s|
  {
    if s != [] {
      assert NoWhitespace(s[1..]) by {
        forall i | 0 <= i < |s[1..]| ensures !IsWhitespace(s[1..][i]) {
          assert s[1..][i] == s[i + 1];
        }
      }
      TokenLengthOfRun(s[1..]);
    }
  }

  /** `s.split_whitespace()` collected: the maximal runs of non-whitespace characters, in order. */
  function SplitWhitespace(s: string): seq<string>
    decreases |s|
  {
    if s == [] then []
    else if IsWhitespace(s[0]) then SplitWhitespace(s[1..])
    else
      var k := TokenLength(s);
      [s[..k]] + SplitWhitespace(s[k..])
  }

  /** Every piece `split_whitespace` yields is a non-empty run without whitespace. */
  lemma {:induction false} SplitWhitespaceWords(s: string)
    ensures forall i :: 0 <= i < |SplitWhitespace(s)| ==> IsWord(SplitWhitespace(s)[i])
    decreases |s|
  {
    if s != [] {
      if IsWhitespace(s[0]) {
        SplitWhitespaceWords(s[1..]);
      } else {
        TokenIsRun(s);
        SplitWhitespaceWords(s[TokenLength(s)..]);
      }
    }
  }

  lemma {:induction false} TokenLengthAppend(a: string, b: string)
    requires b == [] || IsWhitespace(b[0])
    ensures TokenLength(a + b) == TokenLength(a)
    decreases |a|
  {
    if a == [] {
      assert a + b == b;
    } else if !IsWhitespace(a[0]) {
      assert (a + b)[1..] == a[1..] + b;
      TokenLengthAppend(a[1..], b);
    }
  }

  /** Leading whitespace of `a` is skipped in `a + b` as in `a`. */
  lemma SplitWhitespaceAppendSpace(a: string, b: string)
    requires a != [] && IsWhitespace(a[0])
    ensures SplitWhitespace(a + b) == SplitWhitespace(a[1..] + b)
  {
    assert (a + b)[1..] == a[1..] + b;
  }

  /** A leading word of `a` stays the leading word of `a + b` when `b` starts with whitespace. */
  lemma {:induction false} SplitWhitespaceAppendWord(a: string, b: string)
    requires a != [] && !IsWhitespace(a[0])
    requires b == [] || IsWhitespace(b[0])
    ensures SplitWhitespace(a + b) == [a[..TokenLength(a)]] + SplitWhitespace(a[TokenLength(a)..] + b)
  {
    var k := TokenLength(a);
    TokenLengthAppend(a, b);
    assert (a + b)[..k] == a[..k];
    assert (a + b)[k..] == a[k..] + b;
  }

  /** Text that ends where whitespace begins splits independently of what follows it. */
  lemma {:induction false} SplitWhitespaceAppend(a: string, b: string)
    requires b == [] || IsWhitespace(b[0])
    ensures SplitWhitespace(a + b) == SplitWhitespace(a) + SplitWhitespace(b)
    decreases |a|
  {
    if a == [] {
      assert a + b == b;
    } else if IsWhitespace(a[0]) {
      SplitWhitespaceAppendSpace(a, b);
      SplitWhitespaceAppend(a[1..], b);
      assert SplitWhitespace(a) == SplitWhitespace(a[1..]);
    } else {
      var k := TokenLength(a);
      SplitWhitespaceAppendWord(a, b);
      SplitWhitespaceAppend(a[k..], b);
      assert SplitWhitespace(a) == [a[..k]] + SplitWhitespace(a[k..]);
    }
  }

  /** A single word splits into exactly itself. */
  lemma SplitWhitespaceWord(w: string)
    requires IsWord(w)
    ensures SplitWhitespace(w) == [w]
  {
    TokenLengthOfRun(w);
    assert w[..|w|] == w;
    assert w[|w|..] == [];
  }

  /** `split_whitespace` yields nothing exactly when the text is all whitespace. */
  lemma {:induction false} SplitWhitespaceEmpty(s: string)
    ensures SplitWhitespace(s) == [] <==> AllWhitespace(s)
    decreases |s|
  {
    if s != [] {
      if IsWhitespace(s[0]) {
        SplitWhitespaceEmpty(s[1..]);
        assert AllWhitespace(s) <==> AllWhitespace(s[1..]) by {
          if AllWhitespace(s[1..]) {
            forall i | 0 <= i < |s| ensures IsWhitespace(s[i]) {
              if i > 0 { assert s[i] == s[1..][i - 1]; }
            }
          }
        }
      }
    }
  }

  /** `t` is the first maximal run of non-whitespace characters in `s`, starting at index `p`. */
  ghost predicate FirstRunAt(s: string, p: nat, t: string) {
    p + |t| <= |s| && AllWhitespace(s[..p]) && s[p..p + |t|] == t && IsWord(t)
    && (p + |t| == |s| || IsWhitespace(s[p + |t|]))
  }

  /** A first run found after a leading whitespace character is a first run of the whole text. */
  lemma FirstRunShift(s: string, p: nat, t: string)
    requires s != [] && IsWhitespace(s[0]) && FirstRunAt(s[1..], p, t)
    ensures FirstRunAt(s, p + 1, t)
  {
    assert s[1..][..p] == s[1..p + 1];
    assert s[..p + 1] == [s[0]] + s[1..p + 1];
    forall i | 0 <= i < |t| ensures s[p + 1 + i] == t[i] {
      assert s[1..][p..p + |t|][i] == s[1..][p + i];
    }
    assert s[p + 1..p + 1 + |t|] == t;
    assert p + 1 + |t| < |s| ==> s[p + 1 + |t|] == s[1..][p + |t|];
  }

  /** The first word `split_whitespace` yields is the first maximal non-whitespace run. */
  lemma {:induction false} SplitWhitespaceFirst(s: string)
    requires SplitWhitespace(s) != []
    ensures exists p :: FirstRunAt(s, p, SplitWhitespace(s)[0])
    decreases |s|
  {
    var t := SplitWhitespace(s)[0];
    if IsWhitespace(s[0]) {
      SplitWhitespaceFirst(s[1..]);
      var p: nat :| FirstRunAt(s[1..], p, t);
      FirstRunShift(s, p, t);
    } else {
      TokenIsRun(s);
      assert FirstRunAt(s, 0, t);
    }
  }
}
