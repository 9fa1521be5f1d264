/** The few Python string builtins the application's core relies on:
    str.isspace / str.strip, str.split(' ') and the slice s[:-1]. Join, the
    single-space ' '.join, is the specification counterpart of split(' '):
    it says what the pieces are, and it is the inverse of the split.
    Strings are sequences of Unicode scalar values, as Python's str is a
    sequence of code points. */
module Text {

  /** Python's str.isspace() for one character: the ASCII whitespace and
      separator controls, NEL, NBSP and the Unicode space separators. */
  predicate IsSpace(c: char) {
    || c == ' '
    || ('\U{9}' <= c <= '\U{D}')
    || ('\U{1C}' <= c <= '\U{1F}')
    || c == '\U{85}' || c == '\U{A0}' || c == '\U{1680}'
    || ('\U{2000}' <= c <= '\U{200A}')
    || c == '\U{2028}' || c == '\U{2029}' || c == '\U{202F}' || c == '\U{205F}' || c == '\U{3000}'
  }

  predicate AllSpace(s: string) {
    forall k :: 0 <= k < |s| ==> IsSpace(s[k])
  }

  /** Number of whitespace characters at the front of s. */
  function LeadingSpaces(s: string): (n: nat)
    ensures n <= |s|
    ensures AllSpace(s[..n])
    ensures n < |s| ==> !IsSpace(s[n])
  {
    if s == [] || !IsSpace(s[0]) then 0 else 1 + LeadingSpaces(s[1..])
  }

  /** Number of whitespace characters at the end of s. */
  function TrailingSpaces(s: string): (n: nat)
    ensures n <= |s|
    ensures AllSpace(s[|s| - n..])
    ensures n < |s| ==> !IsSpace(s[|s| - 1 - n])
  {
    if s == [] || !IsSpace(s[|s| - 1]) then 0 else 1 + TrailingSpaces(s[..|s| - 1])
  }

  /** Python's s.strip(): s without its leading and trailing whitespace. */
  function Strip(s: string): (r: string)
    ensures r == "" <==> AllSpace(s)
    ensures r != "" ==> !IsSpace(r[0]) && !IsSpace(r[|r| - 1])
  {
    var t := s[LeadingSpaces(s)..];
    t[..|t| - TrailingSpaces(t)]
  }

  lemma SliceSplit(t: string, n: nat)
    requires n <= |t|
    ensures t == t[..n] + t[n..]
  {
  }

  lemma Glue(s: string, front: string, middle: string, back: string, rest: string)
    requires rest == middle + back && s == front + rest
    ensures s == front + middle + back
  {
  }

  /** What strip removes is whitespace, at the two ends of s only. */
  lemma StripSlices(s: string)
    ensures exists front, back :: s == front + Strip(s) + back && AllSpace(front) && AllSpace(back)
  {
    var a := LeadingSpaces(s);
    var t := s[a..];
    var n := |t| - TrailingSpaces(t);
    assert Strip(s) == t[..n];
    SliceSplit(t, n);
    SliceSplit(s, a);
    Glue(s, s[..a], Strip(s), t[n..], t);
    assert AllSpace(s[..a]) && AllSpace(t[n..]);
  }

  /** Python's s[:-1]: s without its last character; "" stays "". */
  function DropLast(s: string): (r: string)
    ensures s == "" ==> r == ""
    ensures s != "" ==> r + [s[|s| - 1]] == s
  {
    if s == "" then s else s[..|s| - 1]
  }

  /** Python's ' '.join(words): the specification counterpart of Split. */
  function Join(words: seq<string>): string
  {
    if words == [] then ""
    else if |words| == 1 then words[0]
    else words[0] + " " + Join(words[1..])
  }

  /** Python's s.split(' '): the pieces of s between single spaces, an empty
      piece wherever two spaces meet or s starts or ends with a space. */
  function Split(s: string): (words: seq<string>)
    ensures |words| >= 1
    ensures forall k :: 0 <= k < |words| ==> ' ' !in words[k]
    ensures Join(words) == s
  {
    if s == [] then [""]
    else
      var rest := Split(s[1..]);
      if s[0] == ' ' then
        assert s == " " + s[1..];
        [""] + rest
      else
        JoinGrowFirst(s[0], rest);
        assert s == [s[0]] + s[1..];
        [[s[0]] + rest[0]] + rest[1..]
  }

  /** Joining a word in front of a non-empty list puts one space after it. */
  lemma JoinCons(w: string, words: seq<string>)
    requires words != []
    ensures Join([w] + words) == w + " " + Join(words)
  {
    assert ([w] + words)[1..] == words;
  }

  /** Prepending a character to the first of several words. */
  lemma JoinGrowCons(c: char, w: string, rest: seq<string>)
    requires rest != []
    ensures Join([[c] + w] + rest) == [c] + Join([w] + rest)
  {
    JoinCons([c] + w, rest);
    JoinCons(w, rest);
    assert ([c] + w) + " " + Join(rest) == [c] + (w + " " + Join(rest));
  }

  /** Prepending a character to the first word prepends it to the joined text. */
  lemma JoinGrowFirst(c: char, words: seq<string>)
    requires |words| >= 1
    ensures Join([[c] + words[0]] + words[1..]) == [c] + Join(words)
  {
    if |words| == 1 {
      assert [[c] + words[0]] + words[1..] == [[c] + words[0]];
    } else {
      assert words == [words[0]] + words[1..];
      JoinGrowCons(c, words[0], words[1..]);
    }
  }

  /** The words of s separated by single spaces: no empty piece. */
  predicate WellSpaced(s: string) {
    forall k :: 0 <= k < |Split(s)| ==> Split(s)[k] != ""
  }

  /** Text that does not start with a space has a non-empty first piece. */
  lemma SplitFirstWord(s: string)
    requires s != "" && s[0] != ' '
    ensures Split(s)[0] != ""
  {
    assert Split(s)[0] == [s[0]] + Split(s[1..])[0];
  }

  /** Text that does not end with a space has a non-empty last piece. */
  lemma {:induction false} SplitLastWord(s: string)
    requires s != "" && s[|s| - 1] != ' '
    ensures Split(s)[|Split(s)| - 1] != ""
  {
    var rest := Split(s[1..]);
    if s[1..] == "" {
      assert Split(s) == [[s[0]] + ""];
    } else {
      assert s[1..][|s[1..]| - 1] == s[|s| - 1];
      SplitLastWord(s[1..]);
      if s[0] != ' ' && |rest| == 1 {
        assert Split(s) == [[s[0]] + rest[0]];
      }
    }
  }

  /** A string without spaces is a single word. */
  lemma {:induction false} SplitWord(w: string)
    requires ' ' !in w
    ensures Split(w) == [w]
  {
    if w != [] {
      SplitWord(w[1..]);
    }
  }

  /** Growing the first word of a list does not touch the words appended after it. */
  lemma GrowFirstAppend(c: char, left: seq<string>, right: seq<string>)
    requires left != []
    ensures [[c] + (left + right)[0]] + (left + right)[1..] == ([[c] + left[0]] + left[1..]) + right
  {
    assert (left + right)[0] == left[0] && (left + right)[1..] == left[1..] + right;
  }

  /** Splitting distributes over a space. */
  lemma {:induction false} SplitAppend(a: string, b: string)
    ensures Split(a + " " + b) == Split(a) + Split(b)
  {
    if a == [] {
      assert a + " " + b == " " + b;
      assert (" " + b)[1..] == b;
    } else {
      var s := a + " " + b;
      assert s[0] == a[0] && s[1..] == a[1..] + " " + b;
      SplitAppend(a[1..], b);
      if a[0] == ' ' {
        assert [""] + (Split(a[1..]) + Split(b)) == ([""] + Split(a[1..])) + Split(b);
      } else {
        GrowFirstAppend(a[0], Split(a[1..]), Split(b));
      }
    }
  }

  /** Split inverts Join on space-free words. */
  lemma {:induction false} SplitJoin(words: seq<string>)
    requires |words| >= 1
    requires forall k :: 0 <= k < |words| ==> ' ' !in words[k]
    ensures Split(Join(words)) == words
  {
    if |words| == 1 {
      SplitWord(words[0]);
    } else {
      SplitWord(words[0]);
      SplitJoin(words[1..]);
      SplitAppend(words[0], Join(words[1..]));
    }
  }

  /** Joining two non-empty lists of words puts one space between them. */
  lemma {:induction false} JoinAppend(a: seq<string>, b: seq<string>)
    requires a != [] && b != []
    ensures Join(a + b) == Join(a) + " " + Join(b)
  {
    if |a| == 1 {
      assert (a + b)[1..] == b;
    } else {
      assert (a + b)[1..] == a[1..] + b;
      JoinAppend(a[1..], b);
    }
  }
}
