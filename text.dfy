/**
 * String utilities the server relies on from the Java library: splitting on a
 * single character (String.split with a one-character pattern), the tokens of
 * java.util.StringTokenizer with a one-character delimiter set, prefixes, and
 * the UTF-8 length of String.getBytes("UTF-8").
 */
module Text {

  /** Splits `s` at every occurrence of `sep`, keeping empty pieces:
      "a//b" gives ["a", "", "b"], "" gives [""]. */
  function SplitOn(s: string, sep: char): (r: seq<string>)
    ensures |r| >= 1
    ensures forall i :: 0 <= i < |r| ==> sep !in r[i]
    decreases |s|
  {
    if s == [] then [""]
    else
      var rest := SplitOn(s[1..], sep);
      if s[0] == sep then [""] + rest else [[s[0]] + rest[0]] + rest[1..]
  }

  /** The pieces separated by single `sep` characters: the inverse of SplitOn. */
  function JoinWith(parts: seq<string>, sep: char): (s: string)
    requires |parts| >= 1
  {
    if |parts| == 1 then parts[0] else parts[0] + [sep] + JoinWith(parts[1..], sep)
  }

  /** One more piece joins on after a separator. */
  lemma {:induction false} JoinWithSnoc(parts: seq<string>, p: string, sep: char)
    requires |parts| >= 1
    ensures JoinWith(parts + [p], sep) == JoinWith(parts, sep) + [sep] + p
    decreases |parts|
  {
    if |parts| > 1 {
      assert (parts + [p])[1..] == parts[1..] + [p];
      JoinWithSnoc(parts[1..], p, sep);
    }
  }

  /** Joined pieces end as the last piece does, when it is not empty. */
  lemma {:induction false} JoinWithLastChar(parts: seq<string>, sep: char)
    requires |parts| >= 1 && parts[|parts| - 1] != ""
    ensures var j := JoinWith(parts, sep);
      j != "" && j[|j| - 1] == parts[|parts| - 1][|parts[|parts| - 1]| - 1]
    decreases |parts|
  {
    if |parts| > 1 {
      JoinWithLastChar(parts[1..], sep);
    }
  }

  /** A prefix free of `sep` extends the first piece only. */
  lemma {:induction false} SplitOnPrefix(a: string, t: string, sep: char)
    requires sep !in a
    ensures SplitOn(a + t, sep) == [a + SplitOn(t, sep)[0]] + SplitOn(t, sep)[1..]
    decreases |a|
  {
    if a == [] {
      var r := SplitOn(t, sep);
      assert a + t == t;
      assert a + r[0] == r[0];
      assert [r[0]] + r[1..] == r;
    } else {
      assert (a + t)[0] == a[0];
      assert (a + t)[1..] == a[1..] + t;
      SplitOnPrefix(a[1..], t, sep);
      assert [a[0]] + (a[1..] + SplitOn(t, sep)[0]) == a + SplitOn(t, sep)[0];
    }
  }

  /** Joining the pieces of `s` gives back `s`. */
  lemma {:induction false} SplitJoin(s: string, sep: char)
    ensures JoinWith(SplitOn(s, sep), sep) == s
    decreases |s|
  {
    if s != [] {
      var rest := SplitOn(s[1..], sep);
      SplitJoin(s[1..], sep);
      if s[0] == sep {
        assert SplitOn(s, sep) == [""] + rest;
        assert ([""] + rest)[1..] == rest;
        assert s == [sep] + s[1..];
      } else {
        var r := SplitOn(s, sep);
        assert r == [[s[0]] + rest[0]] + rest[1..];
        if |rest| == 1 {
          assert s == [s[0]] + s[1..];
        } else {
          assert r[1..] == rest[1..];
          assert JoinWith(rest, sep) == rest[0] + [sep] + JoinWith(rest[1..], sep);
          assert s == [s[0]] + s[1..];
        }
      }
    }
  }

  /** Splitting pieces joined by `sep` gives back the pieces, when none contains `sep`. */
  lemma {:induction false} JoinSplit(parts: seq<string>, sep: char)
    requires |parts| >= 1
    requires forall i :: 0 <= i < |parts| ==> sep !in parts[i]
    ensures SplitOn(JoinWith(parts, sep), sep) == parts
    decreases |parts|
  {
    if |parts| == 1 {
      SplitOnPrefix(parts[0], "", sep);
      assert parts[0] + "" == parts[0];
    } else {
      var tail := JoinWith(parts[1..], sep);
      JoinSplit(parts[1..], sep);
      assert ([sep] + tail)[0] == sep && ([sep] + tail)[1..] == tail;
      assert SplitOn([sep] + tail, sep) == [""] + parts[1..];
      SplitOnPrefix(parts[0], [sep] + tail, sep);
      assert parts[0] + [sep] + tail == parts[0] + ([sep] + tail);
      assert parts[0] + "" == parts[0];
      assert [parts[0]] + parts[1..] == parts;
    }
  }

  /** The non-empty elements of `xs`, in order. */
  function NonEmpty(xs: seq<string>): (r: seq<string>)
    ensures |r| <= |xs|
    ensures forall i :: 0 <= i < |r| ==> r[i] != "" && r[i] in xs
  {
    if xs == [] then []
    else if xs[0] == "" then NonEmpty(xs[1..])
    else [xs[0]] + NonEmpty(xs[1..])
  }

  lemma {:induction false} NonEmptyAppend(a: seq<string>, b: seq<string>)
    ensures NonEmpty(a + b) == NonEmpty(a) + NonEmpty(b)
    decreases |a|
  {
    if a != [] {
      assert (a + b)[0] == a[0];
      assert (a + b)[1..] == a[1..] + b;
      NonEmptyAppend(a[1..], b);
    } else {
      assert a + b == b;
    }
  }

  /** The tokens java.util.StringTokenizer yields for delimiter set `{sep}`:
      the maximal runs of characters other than `sep`. */
  function Tokenize(s: string, sep: char): (r: seq<string>)
    ensures forall i :: 0 <= i < |r| ==> r[i] != "" && sep !in r[i]
  {
    NonEmpty(SplitOn(s, sep))
  }

  /** Words joined by single separators tokenize back into the same words. */
  lemma TokenizeJoin(words: seq<string>, sep: char)
    requires |words| >= 1
    requires forall i :: 0 <= i < |words| ==> words[i] != "" && sep !in words[i]
    ensures Tokenize(JoinWith(words, sep), sep) == words
  {
    JoinSplit(words, sep);
    NonEmptyOfNonEmpty(words);
  }

  lemma {:induction false} NonEmptyOfNonEmpty(xs: seq<string>)
    requires forall i :: 0 <= i < |xs| ==> xs[i] != ""
    ensures NonEmpty(xs) == xs
    decreases |xs|
  {
    if xs != [] {
      NonEmptyOfNonEmpty(xs[1..]);
    }
  }

  /** `xs` without its trailing empty elements. */
  function DropTrailingEmpty(xs: seq<string>): (r: seq<string>)
    ensures |r| <= |xs| && r == xs[..|r|]
    ensures r != [] ==> r[|r| - 1] != ""
    ensures forall i :: |r| <= i < |xs| ==> xs[i] == ""
  {
    if xs == [] then []
    else if xs[|xs| - 1] == "" then DropTrailingEmpty(xs[..|xs| - 1])
    else xs
  }

  /** Java's `s.split(x)` for a one-character pattern `x` that is not a regex
      meta-character: a string without the separator comes back whole, otherwise
      the pieces with the trailing empty ones removed. */
  function JavaSplit(s: string, sep: char): (r: seq<string>)
    ensures forall i :: 0 <= i < |r| ==> sep !in r[i]
  {
    if sep !in s then [s] else DropTrailingEmpty(SplitOn(s, sep))
  }

  function Last(xs: seq<string>): (x: string)
    requires xs != []
  {
    xs[|xs| - 1]
  }

  /** For a string that does not start with the separator, the last element of
      Java's split is defined and is the last StringTokenizer token. */
  lemma JavaSplitLastIsLastToken(s: string, sep: char)
    requires s != [] && s[0] != sep
    ensures JavaSplit(s, sep) != [] && Tokenize(s, sep) != []
    ensures Last(JavaSplit(s, sep)) == Last(Tokenize(s, sep))
  {
    var xs := SplitOn(s, sep);
    assert xs[0] != "";
    if sep !in s {
      SplitOnPrefix(s, "", sep);
      assert s + "" == s;
      assert xs == [s];
    } else {
      LastOfDropTrailing(xs);
    }
  }

  lemma {:induction false} LastOfDropTrailing(xs: seq<string>)
    requires xs != [] && xs[0] != ""
    ensures DropTrailingEmpty(xs) != [] && NonEmpty(xs) != []
    ensures Last(DropTrailingEmpty(xs)) == Last(NonEmpty(xs))
    decreases |xs|
  {
    var n := |xs|;
    var init := xs[..n - 1];
    assert xs == init + [xs[n - 1]];
    NonEmptyAppend(init, [xs[n - 1]]);
    if n == 1 {
      assert NonEmpty(xs) == [xs[0]];
    } else if xs[n - 1] == "" {
      assert NonEmpty([xs[n - 1]]) == [];
      assert NonEmpty(xs) == NonEmpty(init) + [];
      LastOfDropTrailing(init);
    } else {
      assert NonEmpty([xs[n - 1]]) == [xs[n - 1]];
    }
  }

  /** Concatenation regrouped, for text written in several pieces. */
  lemma AppendAssoc<T>(a: seq<T>, b: seq<T>, c: seq<T>)
    ensures a + b + c == a + (b + c)
  {
  }

  /** The pieces of a concatenation of five, recovered by slicing. */
  lemma ConcatSlices<T>(a: seq<T>, b: seq<T>, c: seq<T>, d: seq<T>, e: seq<T>)
    ensures var r := a + b + c + d + e;
      var i, j, k := |a|, |a| + |b|, |a| + |b| + |c|;
      |r| == k + |d| + |e| &&
      r[..i] == a && r[i..j] == b && r[j..k] == c && r[k..|r| - |e|] == d && r[|r| - |e|..] == e
  {
  }

  /** A prefix grown by the next element. */
  lemma PrefixSnoc<T>(s: seq<T>, i: nat)
    requires i < |s|
    ensures s[..i] + [s[i]] == s[..i + 1]
  {
  }

  predicate StartsWith(s: string, prefix: string) {
    |prefix| <= |s| && s[..|prefix|] == prefix
  }

  /** Number of bytes of the UTF-8 encoding of one Unicode scalar value. */
  function Utf8Width(c: char): (n: nat)
    ensures 1 <= n <= 4
    ensures n == 1 <==> (c as int) < 0x80
  {
    if (c as int) < 0x80 then 1
    else if (c as int) < 0x800 then 2
    else if (c as int) < 0x1_0000 then 3
    else 4
  }

  /** Length of `s.getBytes("UTF-8")`. */
  function Utf8Length(s: string): (n: nat)
    ensures |s| <= n <= 4 * |s|
  {
    if s == [] then 0 else Utf8Width(s[0]) + Utf8Length(s[1..])
  }

  predicate IsAscii(s: string) {
    forall i :: 0 <= i < |s| ==> (s[i] as int) < 0x80
  }

  /** An ASCII string is as many bytes long as it has characters. */
  lemma {:induction false} Utf8LengthAscii(s: string)
    ensures Utf8Length(s) == |s| <==> IsAscii(s)
    decreases |s|
  {
    if s != [] {
      Utf8LengthAscii(s[1..]);
      assert IsAscii(s) <==> (s[0] as int) < 0x80 && IsAscii(s[1..]) by {
        if IsAscii(s) {
          forall i | 0 <= i < |s[1..]| ensures (s[1..][i] as int) < 0x80 {
            assert s[1..][i] == s[i + 1];
          }
        }
        if (s[0] as int) < 0x80 && IsAscii(s[1..]) {
          forall i | 0 <= i < |s| ensures (s[i] as int) < 0x80 {
            if i > 0 { assert s[i] == s[1..][i - 1]; }
          }
        }
      }
    }
  }
}
