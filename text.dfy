/** Python string operations the handlers and the form validators rely on:
    `str.isspace`, `str.strip()`, `str.split()` with no separator, `str.lower()`
    and the code-point order that `ORDER BY name` gives. */
module Text {

  /** Python's `str.isspace()` for a single character: the ASCII controls
      TAB..CR, the separators FS..US, SPACE, and the Unicode white-space
      characters Python also treats as whitespace. */
  predicate IsSpace(c: char) {
    var n := c as int;
    (9 <= n <= 13) || (0x1C <= n <= 0x20) || n == 0x85 || n == 0xA0 || n == 0x1680
    || (0x2000 <= n <= 0x200A) || n == 0x2028 || n == 0x2029 || n == 0x202F
    || n == 0x205F || n == 0x3000
  }

  predicate AllSpace(s: string) {
    forall i :: 0 <= i < |s| ==> IsSpace(s[i])
  }

  predicate NoSpace(s: string) {
    forall i :: 0 <= i < |s| ==> !IsSpace(s[i])
  }

  /** `s.lstrip()`: the suffix of `s` left after dropping leading whitespace. */
  function StripLeft(s: string): (r: string)
    ensures |r| <= |s| && r == s[|s| - |r|..]
    ensures AllSpace(s[..|s| - |r|])
    ensures r != [] ==> !IsSpace(r[0])
  {
    if s != [] && IsSpace(s[0]) then
      var r := StripLeft(s[1..]);
      assert s[..|s| - |r|] == [s[0]] + s[1..][..|s| - 1 - |r|];
      r
    else s
  }

  /** `s.rstrip()`: the prefix of `s` left after dropping trailing whitespace. */
  function StripRight(s: string): (r: string)
    ensures |r| <= |s| && r == s[..|r|]
    ensures AllSpace(s[|r|..])
    ensures r != [] ==> !IsSpace(r[|r| - 1])
  {
    if s != [] && IsSpace(s[|s| - 1]) then
      var r := StripRight(s[..|s| - 1]);
      assert s[|r|..] == s[..|s| - 1][|r|..] + [s[|s| - 1]];
      r
    else s
  }

  /** `s.strip()`: `s` without its whitespace margins, i.e. the piece of `s`
      between a whitespace-only prefix and a whitespace-only suffix that
      neither starts nor ends with whitespace; it is empty exactly when `s` is
      all whitespace. */
  function Strip(s: string): (r: string)
    ensures |r| <= |s|
    ensures exists i, j :: 0 <= i <= j <= |s| && r == s[i..j] && AllSpace(s[..i]) && AllSpace(s[j..])
    ensures r == [] <==> AllSpace(s)
    ensures r != [] ==> !IsSpace(r[0]) && !IsSpace(r[|r| - 1])
  {
    var l := StripLeft(s);
    var r := StripRight(l);
    StripPieces(s, l, r);
    r
  }

  /** `r` is obtained from `s` by dropping an all-space prefix, giving `l`,
      and then an all-space suffix of `l`. */
  lemma StripPieces(s: string, l: string, r: string)
    requires |l| <= |s| && l == s[|s| - |l|..] && AllSpace(s[..|s| - |l|])
    requires l != [] ==> !IsSpace(l[0])
    requires |r| <= |l| && r == l[..|r|] && AllSpace(l[|r|..])
    requires r != [] ==> !IsSpace(r[|r| - 1])
    ensures var i := |s| - |l|; s[i..i + |r|] == r && AllSpace(s[..i]) && AllSpace(s[i + |r|..])
    ensures r == [] <==> AllSpace(s)
    ensures r != [] ==> !IsSpace(r[0]) && !IsSpace(r[|r| - 1])
  {
    var i := |s| - |l|;
    assert s[i + |r|..] == l[|r|..];
    if r == [] {
      assert l == [];
      assert s[..|s| - |l|] == s;
    } else {
      assert r[0] == l[0];
    }
  }

  /** Stripping twice is stripping once. */
  lemma {:induction false} StripIdempotent(s: string)
    ensures Strip(Strip(s)) == Strip(s)
  {
    var t := Strip(s);
    if t != [] {
      assert StripLeft(t) == t;
      assert StripRight(t) == t;
    }
  }

  /** Length of the leading run of non-whitespace characters of `t`. */
  function WordLength(t: string): (n: nat)
    ensures n <= |t| && NoSpace(t[..n])
    ensures n < |t| ==> IsSpace(t[n])
    ensures t != [] && !IsSpace(t[0]) ==> n >= 1
  {
    if t == [] || IsSpace(t[0]) then 0
    else
      var n := WordLength(t[1..]);
      assert t[..n + 1] == [t[0]] + t[1..][..n];
      n + 1
  }

  /** Python's `s.split()` with no separator: the maximal runs of
      non-whitespace characters, in order; never an empty word. */
  function Split(s: string): (words: seq<string>)
    ensures forall k :: 0 <= k < |words| ==> words[k] != [] && NoSpace(words[k])
    decreases |s|
  {
    var t := StripLeft(s);
    if t == [] then []
    else
      var n := WordLength(t);
      [t[..n]] + Split(t[n..])
  }

  /** A word with no whitespace around it splits into itself. */
  lemma SplitWord(w: string)
    requires w != [] && NoSpace(w)
    ensures Split(w) == [w]
  {
    WordLengthOfWord(w);
    SplitOneRun(w);
  }

  lemma SplitOneRun(x: string)
    requires x != [] && !IsSpace(x[0]) && WordLength(x) == |x|
    ensures Split(x) == [x]
  {
    SplitWordFirst(x);
    assert x[|x|..] == [] && x[..|x|] == x;
  }

  /** A word is one run of non-whitespace characters. */
  lemma {:induction false} WordLengthOfWord(w: string)
    requires NoSpace(w)
    ensures WordLength(w) == |w|
    decreases |w|
  {
    if w != [] {
      WordLengthOfWord(w[1..]);
    }
  }

  /** A whitespace character ends the current run. */
  lemma {:induction false} WordLengthAtSpace(a: string, c: char, b: string)
    requires IsSpace(c)
    ensures WordLength(a + [c] + b) == WordLength(a)
    decreases |a|
  {
    SliceAround(a, c, b, 0);
    TailAround(a, c, b);
    if a != [] && !IsSpace(a[0]) {
      WordLengthAtSpace(a[1..], c, b);
    }
  }

  /** Leading whitespace is skipped. */
  lemma SplitSpaceFirst(x: string)
    requires x != [] && IsSpace(x[0])
    ensures Split(x) == Split(x[1..])
  {
    assert StripLeft(x) == StripLeft(x[1..]);
  }

  /** A leading run of non-whitespace characters is the first word. */
  lemma SplitWordFirst(x: string)
    requires x != [] && !IsSpace(x[0])
    ensures Split(x) == [x[..WordLength(x)]] + Split(x[WordLength(x)..])
  {
    assert StripLeft(x) == x;
  }

  /** Whitespace separates words: splitting at a whitespace character splits
      the two sides independently. Together with SplitWord and
      `Split([]) == []` this fixes the word boundaries of `str.split()`. */
  lemma {:induction false} SplitAtSpace(a: string, c: char, b: string)
    requires IsSpace(c)
    ensures Split(a + [c] + b) == Split(a) + Split(b)
    decreases |a|, 1
  {
    var x := a + [c] + b;
    SliceAround(a, c, b, 0);
    TailAround(a, c, b);
    if a == [] {
      SplitSpaceFirst(x);
    } else if IsSpace(a[0]) {
      SplitSpaceFirst(x);
      SplitSpaceFirst(a);
      SplitAtSpace(a[1..], c, b);
    } else {
      SplitAtSpaceAfterWord(a, c, b);
    }
  }

  /** The case of SplitAtSpace where `a` starts with a word. */
  lemma {:induction false} SplitAtSpaceAfterWord(a: string, c: char, b: string)
    requires IsSpace(c) && a != [] && !IsSpace(a[0])
    ensures Split(a + [c] + b) == Split(a) + Split(b)
    decreases |a|, 0
  {
    var x := a + [c] + b;
    var n := WordLength(a);
    SliceAround(a, c, b, n);
    WordLengthAtSpace(a, c, b);
    SplitWordFirst(x);
    SplitWordFirst(a);
    SplitAtSpace(a[n..], c, b);
    ConsAppend(a[..n], Split(a[n..]), Split(b));
  }

  lemma SliceAround(a: string, c: char, b: string, n: nat)
    requires n <= |a|
    ensures (a + [c] + b)[0] == if a == [] then c else a[0]
    ensures (a + [c] + b)[..n] == a[..n] && (a + [c] + b)[n..] == a[n..] + [c] + b
  {
  }

  lemma TailAround(a: string, c: char, b: string)
    ensures a == [] ==> (a + [c] + b)[1..] == b
    ensures a != [] ==> (a + [c] + b)[1..] == a[1..] + [c] + b
  {
  }

  lemma ConsAppend(w: string, xs: seq<string>, ys: seq<string>)
    ensures [w] + (xs + ys) == ([w] + xs) + ys
  {
  }

  /** The characters of `s` that are not whitespace, in order. */
  function NonSpaceChars(s: string): string {
    if s == [] then [] else (if IsSpace(s[0]) then [] else [s[0]]) + NonSpaceChars(s[1..])
  }

  function Concat(words: seq<string>): string {
    if words == [] then [] else words[0] + Concat(words[1..])
  }

  lemma {:induction false} NonSpaceCharsAppend(a: string, b: string)
    ensures NonSpaceChars(a + b) == NonSpaceChars(a) + NonSpaceChars(b)
    decreases |a|
  {
    if a != [] {
      assert (a + b)[1..] == a[1..] + b;
      NonSpaceCharsAppend(a[1..], b);
    } else {
      assert a + b == b;
    }
  }

  lemma {:induction false} NonSpaceCharsOfWord(s: string)
    requires NoSpace(s)
    ensures NonSpaceChars(s) == s
    decreases |s|
  {
    if s != [] { NonSpaceCharsOfWord(s[1..]); }
  }

  /** Dropping leading whitespace drops no non-whitespace character. */
  lemma {:induction false} NonSpaceCharsStripLeft(s: string)
    ensures NonSpaceChars(s) == NonSpaceChars(StripLeft(s))
    decreases |s|
  {
    if s != [] && IsSpace(s[0]) {
      NonSpaceCharsStripLeft(s[1..]);
    }
  }

  /** A word of the split followed by the rest of the input. */
  lemma {:induction false} NonSpaceCharsWord(t: string, n: nat)
    requires n <= |t| && NoSpace(t[..n])
    ensures NonSpaceChars(t) == t[..n] + NonSpaceChars(t[n..])
  {
    assert t == t[..n] + t[n..];
    NonSpaceCharsAppend(t[..n], t[n..]);
    NonSpaceCharsOfWord(t[..n]);
  }

  /** Splitting loses exactly the whitespace: gluing the words back together
      gives the non-whitespace characters of the input, in order. */
  lemma {:induction false} SplitKeepsNonSpace(s: string)
    ensures Concat(Split(s)) == NonSpaceChars(s)
    decreases |s|
  {
    var t := StripLeft(s);
    NonSpaceCharsStripLeft(s);
    if t != [] {
      var n := WordLength(t);
      var rest := Split(t[n..]);
      assert Split(s) == [t[..n]] + rest;
      NonSpaceCharsWord(t, n);
      SplitKeepsNonSpace(t[n..]);
      assert ([t[..n]] + rest)[1..] == rest;
    }
  }

  /** The split is empty exactly when the input is blank, i.e. when
      `strip()` would give the empty string. */
  lemma {:induction false} SplitEmptyIffBlank(s: string)
    ensures Split(s) == [] <==> Strip(s) == []
  {
    var t := StripLeft(s);
    if t == [] {
      assert s == s[..|s| - |t|] + t;
    }
  }

  /** Python's `str.lower()` on ASCII letters; other characters are kept. */
  function LowerChar(c: char): char {
    if 'A' <= c <= 'Z' then (c as int + 32) as char else c
  }

  function Lower(s: string): (r: string)
    ensures |r| == |s|
    ensures forall i :: 0 <= i < |s| ==> !('A' <= r[i] <= 'Z')
    ensures forall i :: 0 <= i < |s| && !('A' <= s[i] <= 'Z') ==> r[i] == s[i]
    ensures forall i :: 0 <= i < |s| && 'A' <= s[i] <= 'Z' ==> r[i] as int == s[i] as int + 32
  {
    seq(|s|, i requires 0 <= i < |s| => LowerChar(s[i]))
  }

  /** Lower-casing twice is lower-casing once. */
  lemma LowerIdempotent(s: string)
    ensures Lower(Lower(s)) == Lower(s)
  {
  }

  /** Code-point (binary collation) order on strings: a prefix sorts first. */
  predicate LexLe(a: string, b: string) {
    a == [] || (b != [] && (a[0] < b[0] || (a[0] == b[0] && LexLe(a[1..], b[1..]))))
  }

  lemma {:induction false} LexLeTotal(a: string, b: string)
    ensures LexLe(a, b) || LexLe(b, a)
    decreases |a|
  {
    if a != [] && b != [] && a[0] == b[0] {
      LexLeTotal(a[1..], b[1..]);
    }
  }

  lemma {:induction false} LexLeTransitive(a: string, b: string, c: string)
    requires LexLe(a, b) && LexLe(b, c)
    ensures LexLe(a, c)
    decreases |a|
  {
    if a != [] && a[0] == b[0] && b[0] == c[0] {
      LexLeTransitive(a[1..], b[1..], c[1..]);
    }
  }
}
