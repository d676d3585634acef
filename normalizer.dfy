/**
 * The title normaliser `normalize_movie_name` of imdb.py: the only join key
 * between scraped listing titles and IMDb titles.
 *
 *   lower-case, then `re.sub(r'[\W_]+', ' ', _)`, then `re.sub(r' +', ' ', _)`,
 *   then `str.strip()`.
 *
 * The run scanners `DropWhile`, `TrimRight` and `Strip` are shared with the
 * `int()` and `str.strip("/")` models of the listing record.
 *
 * Characters are classified by two small predicates: `IsWordChar` stands for
 * the alphanumerics of `\w` (the underscore is excluded, as the pattern
 * `[\W_]` does) and `Lower` for `str.lower` on one character.
 */
module Normalizer {

  /** An alphanumeric character: a character that `[\W_]` does not match. */
  predicate IsWordChar(c: char) {
    'a' <= c <= 'z' || 'A' <= c <= 'Z' || '0' <= c <= '9'
  }

  /**
   * Character classes scanned in runs: `[\W_]` and ` ` by the normaliser,
   * whitespace by `str.strip()`, the narrower whitespace `int()` skips, and
   * the slash `str.strip("/")` removes.
   */
  datatype CharClass = NonWord | Blank | Whitespace | IntWhitespace | Slash

  predicate InClass(c: char, p: CharClass) {
    match p
    case NonWord => !IsWordChar(c)
    case Blank => c == ' '
    case Whitespace => IsSpace(c)
    case IntWhitespace => c == ' ' || 9 <= c as int <= 13
    case Slash => c == '/'
  }

  /** Characters `str.strip()` treats as whitespace (`str.isspace`), the file, group, record and unit separators included. */
  predicate IsSpace(c: char) {
    c == ' ' || 9 <= c as int <= 13 || 28 <= c as int <= 31
  }

  /** `str.lower` on one character; it never changes whether a character is a word character. */
  function Lower(c: char): (r: char)
    ensures IsWordChar(r) <==> IsWordChar(c)
    ensures !('A' <= r <= 'Z')
    ensures !IsWordChar(c) ==> r == c
  {
    if 'A' <= c <= 'Z' then (c as int + 32) as char else c
  }

  /** `str.lower` on a whole string. */
  function LowerStr(s: string): string {
    seq(|s|, i requires 0 <= i < |s| => Lower(s[i]))
  }

  /** `s` with its leading characters that satisfy `p` removed. */
  function DropWhile(s: string, p: CharClass): (r: string)
    ensures |r| <= |s|
  {
    if s != [] && InClass(s[0], p) then DropWhile(s[1..], p) else s
  }

  /**
   * `DropWhile` removes exactly the longest prefix of class characters: what
   * it drops is all in the class, and what it leaves is a suffix that does
   * not start with one.
   */
  lemma {:induction false} DropWhileShape(s: string, p: CharClass)
    ensures DropWhile(s, p) == s[|s| - |DropWhile(s, p)|..]
    ensures forall i :: 0 <= i < |s| - |DropWhile(s, p)| ==> InClass(s[i], p)
    ensures DropWhile(s, p) == [] || !InClass(DropWhile(s, p)[0], p)
    decreases |s|
  {
    if s != [] && InClass(s[0], p) {
      DropWhileShape(s[1..], p);
      forall i | 1 <= i < |s| - |DropWhile(s, p)|
        ensures InClass(s[i], p)
      {
        assert s[i] == s[1..][i - 1];
      }
    }
  }

  /** Dropping a leading run from `a + b` drops it from `a`, and from `b` only when all of `a` goes. */
  lemma {:induction false} DropWhileAppend(a: string, b: string, p: CharClass)
    ensures DropWhile(a + b, p) == if DropWhile(a, p) == [] then DropWhile(b, p) else DropWhile(a, p) + b
  {
    if a == [] {
      assert a + b == b;
    } else {
      assert (a + b)[0] == a[0] && (a + b)[1..] == a[1..] + b;
      if InClass(a[0], p) {
        DropWhileAppend(a[1..], b, p);
      }
    }
  }

  /** `s` with its trailing characters that satisfy `p` removed. */
  function TrimRight(s: string, p: CharClass): string {
    if s != [] && InClass(s[|s| - 1], p) then TrimRight(s[..|s| - 1], p) else s
  }

  /**
   * `TrimRight` removes exactly the longest suffix of class characters: what
   * it drops is all in the class, and what it leaves is a prefix that does
   * not end with one.
   */
  lemma {:induction false} TrimRightShape(s: string, p: CharClass)
    ensures |TrimRight(s, p)| <= |s| && TrimRight(s, p) == s[..|TrimRight(s, p)|]
    ensures forall i :: |TrimRight(s, p)| <= i < |s| ==> InClass(s[i], p)
    ensures TrimRight(s, p) == [] || !InClass(TrimRight(s, p)[|TrimRight(s, p)| - 1], p)
    decreases |s|
  {
    if s != [] && InClass(s[|s| - 1], p) {
      TrimRightShape(s[..|s| - 1], p);
      forall i | |TrimRight(s, p)| <= i < |s| - 1
        ensures InClass(s[i], p)
      {
        assert s[i] == s[..|s| - 1][i];
      }
    }
  }

  /** `str.strip(chars)` for the characters of a class; `Strip(s, Whitespace)` is `str.strip()`. */
  function Strip(s: string, p: CharClass): string {
    TrimRight(DropWhile(s, p), p)
  }

  /**
   * `Strip` keeps an infix `s[a..b]` of its input that neither starts nor
   * ends with a class character, and everything it removes around it is in
   * the class.
   */
  lemma StripShape(s: string, p: CharClass) returns (a: nat, b: nat)
    ensures a <= b <= |s| && Strip(s, p) == s[a..b]
    ensures forall i :: (0 <= i < a || b <= i < |s|) ==> InClass(s[i], p)
    ensures Strip(s, p) == [] || (!InClass(Strip(s, p)[0], p) && !InClass(Strip(s, p)[|Strip(s, p)| - 1], p))
  {
    var d := DropWhile(s, p);
    DropWhileShape(s, p);
    TrimRightShape(d, p);
    var r := TrimRight(d, p);
    a, b := |s| - |d|, |s| - |d| + |r|;
    assert r == s[a..b];
    forall i | b <= i < |s|
      ensures InClass(s[i], p)
    {
      assert s[i] == d[i - a];
    }
  }

  /**
   * `re.sub(c + '+', ' ', s)` for a one-character class `p`: every maximal
   * run of characters satisfying `p` becomes a single space, every other
   * character is kept.
   */
  function ReplaceRuns(s: string, p: CharClass): string
    decreases |s|
  {
    if s == [] then []
    else
      var head := if InClass(s[0], p) then " " else [s[0]];
      var rest := if InClass(s[0], p) then DropWhile(s[1..], p) else s[1..];
      head + ReplaceRuns(rest, p)
  }

  /** Every character of the output is the replacement space or a character of the input outside the class. */
  lemma {:induction false} ReplaceRunsChars(s: string, p: CharClass)
    ensures forall c :: c in ReplaceRuns(s, p) ==> c == ' ' || (c in s && !InClass(c, p))
    decreases |s|
  {
    if s == [] {
    } else if InClass(s[0], p) {
      var rest := DropWhile(s[1..], p);
      ReplaceRunsChars(rest, p);
      DropWhileShape(s[1..], p);
      assert forall c :: c in rest ==> c in s;
    } else {
      ReplaceRunsChars(s[1..], p);
    }
  }

  /** The title normaliser: the join key between scraped and reference titles. */
  function Normalize(s: string): string {
    Strip(ReplaceRuns(ReplaceRuns(LowerStr(s), NonWord), Blank), Whitespace)
  }

  predicate NoDoubleSpace(s: string) {
    forall i :: 0 <= i < |s| - 1 ==> !(s[i] == ' ' && s[i + 1] == ' ')
  }

  /** Every character is a space or a lower-case word character. */
  predicate LowerWordsAndSpaces(s: string) {
    forall i :: 0 <= i < |s| ==> s[i] == ' ' || (IsWordChar(s[i]) && Lower(s[i]) == s[i])
  }

  /** The shape of every normalised title. */
  predicate IsNormalized(s: string) {
    && LowerWordsAndSpaces(s)
    && NoDoubleSpace(s)
    && (s != [] ==> s[0] != ' ' && s[|s| - 1] != ' ')
  }

  /** Replacing runs of a class that contains the space never leaves two adjacent spaces. */
  lemma {:induction false} ReplaceRunsNoDoubleSpace(s: string, p: CharClass)
    requires InClass(' ', p)
    ensures NoDoubleSpace(ReplaceRuns(s, p))
    decreases |s|
  {
    var r := ReplaceRuns(s, p);
    if s == [] {
    } else if InClass(s[0], p) {
      var rest := DropWhile(s[1..], p);
      ReplaceRunsNoDoubleSpace(rest, p);
      assert r == " " + ReplaceRuns(rest, p);
      if rest != [] {
        DropWhileShape(s[1..], p);
        assert r[1] == rest[0] && rest[0] != ' ';
      }
    } else {
      ReplaceRunsNoDoubleSpace(s[1..], p);
      assert r == [s[0]] + ReplaceRuns(s[1..], p);
      assert s[0] != ' ';
      if s[1..] != [] {
        assert r[1] == (if InClass(s[1], p) then ' ' else s[1]);
      }
    }
  }

  /** On a string whose class characters are lone spaces, replacing runs changes nothing. */
  lemma {:induction false} ReplaceRunsIdentity(s: string, p: CharClass)
    requires forall i :: 0 <= i < |s| && InClass(s[i], p) ==> s[i] == ' '
    requires NoDoubleSpace(s)
    ensures ReplaceRuns(s, p) == s
    decreases |s|
  {
    if s == [] {
    } else if InClass(s[0], p) {
      assert s[0] == ' ';
      if |s| > 1 {
        assert s[1] != ' ';
      }
      assert s[1..] == [] || !InClass(s[1], p);
      assert DropWhile(s[1..], p) == s[1..];
      ReplaceRunsIdentity(s[1..], p);
      assert s == [' '] + s[1..];
    } else {
      ReplaceRunsIdentity(s[1..], p);
      assert s == [s[0]] + s[1..];
    }
  }

  /** Stripping keeps the character shape and removes the spaces at both ends. */
  lemma StripKeepsShape(u: string)
    requires LowerWordsAndSpaces(u) && NoDoubleSpace(u)
    ensures IsNormalized(Strip(u, Whitespace))
  {
    var v := Strip(u, Whitespace);
    var a, b := StripShape(u, Whitespace);
    assert forall i :: 0 <= i < |v| ==> v[i] == u[a + i];
  }

  /** Replacing the runs of non-word characters of a lower-cased string leaves lower-case words and single spaces. */
  lemma ReplaceNonWordShape(l: string)
    requires forall i :: 0 <= i < |l| ==> Lower(l[i]) == l[i]
    ensures LowerWordsAndSpaces(ReplaceRuns(l, NonWord))
    ensures NoDoubleSpace(ReplaceRuns(l, NonWord))
  {
    var t := ReplaceRuns(l, NonWord);
    ReplaceRunsNoDoubleSpace(l, NonWord);
    ReplaceRunsChars(l, NonWord);
    forall i | 0 <= i < |t| && t[i] != ' '
      ensures IsWordChar(t[i]) && Lower(t[i]) == t[i]
    {
      assert t[i] in t;
      var j :| 0 <= j < |l| && l[j] == t[i];
    }
  }

  /** The output of `Normalize` is lower-case words separated by single spaces, with no space at either end. */
  lemma NormalizeIsNormalized(s: string)
    ensures IsNormalized(Normalize(s))
  {
    var l := LowerStr(s);
    var t := ReplaceRuns(l, NonWord);
    ReplaceNonWordShape(l);
    ReplaceRunsIdentity(t, Blank);
    assert ReplaceRuns(t, Blank) == t;
    StripKeepsShape(t);
    assert Normalize(s) == Strip(t, Whitespace);
  }

  /** A string without class characters at either end is its own strip. */
  lemma StripIdentity(t: string, p: CharClass)
    requires t == [] || (!InClass(t[0], p) && !InClass(t[|t| - 1], p))
    ensures Strip(t, p) == t
  {
    assert DropWhile(t, p) == t;
    assert TrimRight(t, p) == t;
  }

  /** A string of lower-case characters is its own lower-casing. */
  lemma LowerIdentity(t: string)
    requires LowerWordsAndSpaces(t)
    ensures LowerStr(t) == t
  {
  }

  /** Normalising an already normalised title changes nothing. */
  lemma NormalizedIsFixpoint(t: string)
    requires IsNormalized(t)
    ensures Normalize(t) == t
  {
    LowerIdentity(t);
    ReplaceRunsIdentity(t, NonWord);
    ReplaceRunsIdentity(t, Blank);
    StripIdentity(t, Whitespace);
  }

  /** `normalize_movie_name` is idempotent. */
  lemma NormalizeIdempotent(s: string)
    ensures Normalize(Normalize(s)) == Normalize(s)
  {
    NormalizeIsNormalized(s);
    NormalizedIsFixpoint(Normalize(s));
  }

  /** Characters outside the class are copied unchanged. */
  lemma {:induction false} ReplaceRunsKeep(w: string, rest: string, p: CharClass)
    requires NoneInClass(w, p)
    ensures ReplaceRuns(w + rest, p) == w + ReplaceRuns(rest, p)
    decreases |w|
  {
    if w != [] {
      assert w[0] in w && (w + rest)[0] == w[0];
      assert (w + rest)[1..] == w[1..] + rest;
      ReplaceRunsKeep(w[1..], rest, p);
      assert w + ReplaceRuns(rest, p) == [w[0]] + (w[1..] + ReplaceRuns(rest, p));
    } else {
      assert w + rest == rest;
    }
  }

  /** A whole run of class characters collapses to one space. */
  lemma {:induction false} ReplaceRunsCollapse(run: string, rest: string, p: CharClass)
    requires run != [] && AllInClass(run, p)
    requires rest == [] || !InClass(rest[0], p)
    ensures ReplaceRuns(run + rest, p) == " " + ReplaceRuns(rest, p)
  {
    DropWhileRun(run[1..], rest, p);
    assert (run + rest)[1..] == run[1..] + rest;
  }

  lemma {:induction false} DropWhileRun(run: string, rest: string, p: CharClass)
    requires AllInClass(run, p)
    requires rest == [] || !InClass(rest[0], p)
    ensures DropWhile(run + rest, p) == rest
    decreases |run|
  {
    if run != [] {
      assert (run + rest)[1..] == run[1..] + rest;
      DropWhileRun(run[1..], rest, p);
    } else {
      assert run + rest == rest;
    }
  }

  // The worked example below, one run at a time.

  predicate AllInClass(s: string, p: CharClass) {
    forall c :: c in s ==> InClass(c, p)
  }

  predicate NoneInClass(s: string, p: CharClass) {
    forall c :: c in s ==> !InClass(c, p)
  }

  /** A word followed by a run of class characters becomes the word and one space. */
  lemma WordThenRun(w: string, n: string, rest: string, p: CharClass)
    requires NoneInClass(w, p) && n != [] && AllInClass(n, p)
    requires rest == [] || !InClass(rest[0], p)
    ensures ReplaceRuns(w + (n + rest), p) == w + " " + ReplaceRuns(rest, p)
  {
    var tail := ReplaceRuns(rest, p);
    ReplaceRunsCollapse(n, rest, p);
    ReplaceRunsKeep(w, n + rest, p);
    assert w + (" " + tail) == w + " " + tail;
  }

  /** Three words, each followed by a run of class characters, become three space-terminated words. */
  lemma ThreeWords(w1: string, n1: string, w2: string, n2: string, w3: string, n3: string, p: CharClass)
    requires NoneInClass(w1, p) && NoneInClass(w2, p) && NoneInClass(w3, p)
    requires w2 != [] && w3 != []
    requires n1 != [] && n2 != [] && n3 != []
    requires AllInClass(n1, p) && AllInClass(n2, p) && AllInClass(n3, p)
    ensures ReplaceRuns(w1 + (n1 + (w2 + (n2 + (w3 + (n3 + []))))), p) == w1 + " " + (w2 + " " + (w3 + " "))
  {
    assert w3[0] in w3 && w2[0] in w2;
    WordThenRun(w3, n3, [], p);
    assert ReplaceRuns([], p) == [];
    WordThenRun(w2, n2, w3 + (n3 + []), p);
    WordThenRun(w1, n1, w2 + (n2 + (w3 + (n3 + []))), p);
  }

  lemma MatrixRuns(r: string)
    requires r == "the matrix (1999)!"
    ensures ReplaceRuns(r, NonWord) == "the matrix 1999 "
  {
    var w1, n1, w2, n2, w3, n3 := "the", " ", "matrix", " (", "1999", ")!";
    assert NoneInClass(w1, NonWord) && NoneInClass(w2, NonWord) && NoneInClass(w3, NonWord);
    assert AllInClass(n1, NonWord) && AllInClass(n2, NonWord) && AllInClass(n3, NonWord);
    assert r == w1 + (n1 + (w2 + (n2 + (w3 + (n3 + [])))));
    ThreeWords(w1, n1, w2, n2, w3, n3, NonWord);
  }

  lemma MatrixStrip(u: string, t: string)
    requires u == "the matrix 1999 " && t == "the matrix 1999"
    ensures Strip(ReplaceRuns(u, Blank), Whitespace) == t
  {
    assert NoDoubleSpace(u);
    ReplaceRunsIdentity(u, Blank);
    assert DropWhile(u, Whitespace) == u;
    assert TrimRight(u, Whitespace) == t;
  }

  lemma MatrixFixpoint(t: string)
    requires t == "the matrix 1999"
    ensures Normalize(t) == t
  {
    assert LowerWordsAndSpaces(t);
    assert NoDoubleSpace(t);
    NormalizedIsFixpoint(t);
  }

  /** Punctuation, case and the year's parentheses are folded away. */
  lemma MatrixExample()
    ensures Normalize("The Matrix (1999)!") == "the matrix 1999"
    ensures Normalize("the matrix 1999") == "the matrix 1999"
  {
    var l := LowerStr("The Matrix (1999)!");
    assert l == "the matrix (1999)!";
    MatrixRuns(l);
    MatrixStrip(ReplaceRuns(l, NonWord), "the matrix 1999");
    MatrixFixpoint("the matrix 1999");
  }
}
