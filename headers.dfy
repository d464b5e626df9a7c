/**
 * The two things isValidRequest does with each header line: the whole-line
 * match against the regular expression `^.*:\s.*$`, and, on a line that
 * starts with `Content-Length:`, the capture of the last piece of the line
 * split at single spaces.
 */
module Headers {
  import opened Wrappers
  import opened Text

  /** The characters java.util.regex's `.` does not match (no DOTALL, no UNIX_LINES). */
  predicate IsLineTerminator(c: char) {
    c == '\n' || c == '\r' || c == '\U{85}' || c == '\U{2028}' || c == '\U{2029}'
  }

  predicate IsDot(c: char) {
    !IsLineTerminator(c)
  }

  /** The characters of java.util.regex's `\s`. */
  predicate IsRegexSpace(c: char) {
    c == ' ' || c == '\t' || c == '\n' || c == '\U{B}' || c == '\U{C}' || c == '\r'
  }

  predicate AllDots(s: string) {
    forall i :: 0 <= i < |s| ==> IsDot(s[i])
  }

  /** Reference reading of `^.*:\s.*$` over the whole line: some colon is
      followed by one whitespace character and every other character is one
      that `.` matches. */
  ghost predicate HeaderPattern(line: string) {
    exists i :: 0 <= i < |line| - 1 && line[i] == ':' && IsRegexSpace(line[i + 1])
      && AllDots(line[..i]) && AllDots(line[i + 2..])
  }

  /** The states of the pattern's automaton that are live after a prefix:
      still in the leading `.*`, just past the `:`, or in the trailing `.*`. */
  datatype Live = Live(lead: bool, colon: bool, trail: bool)

  function Step(q: Live, c: char): (next: Live) {
    Live(q.lead && IsDot(c), q.lead && c == ':', (q.colon && IsRegexSpace(c)) || (q.trail && IsDot(c)))
  }

  /** The live states after reading the first `k` characters of `line`. */
  function LiveAfter(line: string, k: nat): (q: Live)
    requires k <= |line|
    ensures q.colon ==> 1 <= k && line[k - 1] == ':'
    ensures q.trail ==> 2 <= k
  {
    if k == 0 then Live(true, false, false) else Step(LiveAfter(line, k - 1), line[k - 1])
  }

  /** The whole line matches `^.*:\s.*$`: the automaton ends in the trailing `.*`. */
  predicate HeaderMatches(line: string)
    ensures HeaderMatches(line) ==> 2 <= |line|
  {
    LiveAfter(line, |line|).trail
  }

  lemma AllDotsSnoc(s: string, a: nat, k: nat)
    requires a <= k < |s|
    ensures AllDots(s[a..k + 1]) <==> AllDots(s[a..k]) && IsDot(s[k])
  {
    var longer := s[a..k + 1];
    assert longer == s[a..k] + [s[k]];
    assert longer[k - a] == s[k];
    if AllDots(s[a..k]) && IsDot(s[k]) {
      forall i | 0 <= i < |longer| ensures IsDot(longer[i]) {
        if i < k - a { assert longer[i] == s[a..k][i]; }
      }
    }
    if AllDots(longer) {
      forall i | 0 <= i < |s[a..k]| ensures IsDot(s[a..k][i]) {
        assert s[a..k][i] == longer[i];
      }
    }
  }

  /** Position `i` starts a match of `:\s.*` that covers `line[i..k]`,
      with `line[..i]` matched by the leading `.*`. */
  ghost predicate TrailFrom(line: string, k: nat, i: nat)
    requires k <= |line|
  {
    i + 2 <= k && line[i] == ':' && IsRegexSpace(line[i + 1]) && AllDots(line[..i]) && AllDots(line[i + 2..k])
  }

  ghost predicate TrailReached(line: string, k: nat)
    requires k <= |line|
  {
    exists i: nat :: TrailFrom(line, k, i)
  }

  /** What each live state means about the prefix read so far. */
  lemma {:induction false} LiveAfterMeaning(line: string, k: nat)
    requires k <= |line|
    ensures LiveAfter(line, k).lead <==> AllDots(line[..k])
    ensures LiveAfter(line, k).colon <==> 1 <= k && line[k - 1] == ':' && AllDots(line[..k - 1])
    ensures LiveAfter(line, k).trail <==> TrailReached(line, k)
  {
    if k > 0 {
      var j := k - 1;
      var q := LiveAfter(line, j);
      LiveAfterMeaning(line, j);
      AllDotsSnoc(line, 0, j);
      assert line[..k] == line[0..k] && line[..j] == line[0..j];
      var c := line[j];
      if q.colon && IsRegexSpace(c) {
        assert line[k..k] == [];
        assert TrailFrom(line, k, k - 2);
      }
      if q.trail && IsDot(c) {
        var i: nat :| TrailFrom(line, j, i);
        AllDotsSnoc(line, i + 2, j);
        assert TrailFrom(line, k, i);
      }
      if TrailReached(line, k) {
        var i: nat :| TrailFrom(line, k, i);
        if i + 2 == k {
          assert q.colon && IsRegexSpace(c);
        } else {
          AllDotsSnoc(line, i + 2, j);
          assert TrailFrom(line, j, i);
          assert q.trail && IsDot(c);
        }
      }
    }
  }

  /** The automaton accepts exactly the lines the pattern describes. */
  lemma HeaderMatchesIff(line: string)
    ensures HeaderMatches(line) <==> HeaderPattern(line)
  {
    LiveAfterMeaning(line, |line|);
    if HeaderMatches(line) {
      var i: nat :| TrailFrom(line, |line|, i);
      assert line[i + 2..|line|] == line[i + 2..];
    }
    if HeaderPattern(line) {
      var i :| 0 <= i < |line| - 1 && line[i] == ':' && IsRegexSpace(line[i + 1])
        && AllDots(line[..i]) && AllDots(line[i + 2..]);
      assert line[i + 2..|line|] == line[i + 2..];
      assert TrailFrom(line, |line|, i);
    }
  }

  /** Two examples at the edge of the format: the space after the colon is
      required, and the value may be empty. */
  lemma HeaderExamples()
    ensures !HeaderMatches("Host:x")
    ensures HeaderMatches("Host: ")
  {
    var good, bad := "Host: ", "Host:x";
    assert LiveAfter(good, 4) == LiveAfter(bad, 4) == Live(true, false, false) by {
      assert LiveAfter(good, 1) == LiveAfter(bad, 1) == Live(true, false, false);
      assert LiveAfter(good, 2) == LiveAfter(bad, 2) == Live(true, false, false);
      assert LiveAfter(good, 3) == LiveAfter(bad, 3) == Live(true, false, false);
    }
    assert LiveAfter(good, 5) == LiveAfter(bad, 5) == Live(true, true, false);
    assert LiveAfter(good, 6) == Live(true, false, true);
    assert LiveAfter(bad, 6) == Live(true, false, false);
  }

  const ContentLengthPrefix := "Content-Length:"

  /** The last piece of a `Content-Length:` line split at single spaces
      (String.split, which drops trailing empty pieces): the line's last
      space-separated word. */
  function ContentLengthValue(line: string): (v: string)
    requires StartsWith(line, ContentLengthPrefix)
    ensures v != "" && ' ' !in v
    ensures Tokenize(line, ' ') != [] && v == Last(Tokenize(line, ' '))
  {
    assert line[0] == ContentLengthPrefix[0];
    JavaSplitLastIsLastToken(line, ' ');
    var parts := JavaSplit(line, ' ');
    parts[|parts| - 1]
  }

  /** The contentLength variable after one header line: replaced on a
      `Content-Length:` line, kept on any other. */
  function NextContentLength(line: string, contentLength: Option<string>): (r: Option<string>)
    ensures contentLength.Some? ==> r.Some?
    ensures StartsWith(line, ContentLengthPrefix) ==> r == Some(Last(Tokenize(line, ' ')))
    ensures !StartsWith(line, ContentLengthPrefix) ==> r == contentLength
  {
    if StartsWith(line, ContentLengthPrefix) then Some(ContentLengthValue(line)) else contentLength
  }
}
