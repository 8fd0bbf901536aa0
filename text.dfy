/** The string operations the command handler relies on, as Python defines
    them for `str`: whitespace, `strip()`, `split()` without a separator,
    `" ".join(...)`, `lower()` and the decimal rendering of an integer. */
module Text {

  /** Python's `str.isspace()`: the ASCII tab-to-carriage-return controls,
      the four information separators, space, and the Unicode spaces. */
  predicate IsSpace(c: char) {
    ('\t' <= c <= '\r') || ('\U{1C}' <= c <= ' ') ||
    c == '\U{85}' || c == '\U{A0}' || c == '\U{1680}' ||
    ('\U{2000}' <= c <= '\U{200A}') ||
    c == '\U{2028}' || c == '\U{2029}' || c == '\U{202F}' || c == '\U{205F}' || c == '\U{3000}'
  }

  predicate AllSpace(s: string) {
    forall i :: 0 <= i < |s| ==> IsSpace(s[i])
  }

  predicate NoSpace(s: string) {
    forall i :: 0 <= i < |s| ==> !IsSpace(s[i])
  }

  /** A token of `split()`: a non-empty run without whitespace. */
  predicate IsWord(w: string) {
    w != [] && NoSpace(w)
  }

  /** `lstrip()`: the suffix left after the leading whitespace. */
  function TrimLeft(s: string): (r: string)
    ensures |r| <= |s|
    ensures r == [] || !IsSpace(r[0])
    ensures r == [] <==> AllSpace(s)
  {
    if s == [] || !IsSpace(s[0]) then s else TrimLeft(s[1..])
  }

  /** `rstrip()`: the prefix left before the trailing whitespace. */
  function TrimRight(s: string): (r: string)
    ensures |r| <= |s|
    ensures r == [] || (r[0] == s[0] && !IsSpace(r[|r| - 1]))
    ensures r == [] <==> AllSpace(s)
  {
    if s == [] || !IsSpace(s[|s| - 1]) then s else TrimRight(s[..|s| - 1])
  }

  /** `strip()`: the text between the leading and the trailing whitespace. */
  function Strip(s: string): (r: string)
    ensures |r| <= |s|
    ensures r == [] || (!IsSpace(r[0]) && !IsSpace(r[|r| - 1]))
    ensures r == [] <==> AllSpace(s)
  {
    TrimRight(TrimLeft(s))
  }

  /** Length of the leading run of non-whitespace characters. */
  function WordLength(t: string): (n: nat)
    ensures n <= |t| && NoSpace(t[..n])
    ensures n == |t| || IsSpace(t[n])
  {
    if t == [] || IsSpace(t[0]) then 0 else 1 + WordLength(t[1..])
  }

  /** `split()` with no separator: the maximal runs of non-whitespace. */
  function Split(s: string): (r: seq<string>)
    ensures forall k :: 0 <= k < |r| ==> IsWord(r[k])
    ensures r == [] <==> AllSpace(s)
    decreases |s|
  {
    var t := TrimLeft(s);
    if t == [] then []
    else
      var n := WordLength(t);
      [t[..n]] + Split(t[n..])
  }

  /** `" ".join(words)`: the first word, then a single space before each
      further word. */
  function Join(words: seq<string>): string {
    if words == [] then ""
    else if |words| == 1 then words[0]
    else words[0] + " " + Join(words[1..])
  }

  /** `" ".join` starts with the first word, follows it with a single space
      when more words come, and is the word itself for a single word. */
  lemma JoinSeparates(words: seq<string>)
    ensures words != [] ==> |words[0]| <= |Join(words)| && Join(words)[..|words[0]|] == words[0]
    ensures |words| > 1 ==> |words[0]| < |Join(words)| && Join(words)[|words[0]|] == ' '
    ensures |words| == 1 ==> Join(words) == words[0]
  {
  }

  /** ASCII case folding, plus the one non-ASCII letter (the Kelvin sign)
      whose lower case is an ASCII letter. */
  function LowerChar(c: char): char {
    if 'A' <= c <= 'Z' then ((c as int) + 32) as char
    else if c == '\U{212A}' then 'k'
    else c
  }

  function Lower(s: string): (r: string)
    ensures |r| == |s|
  {
    seq(|s|, i requires 0 <= i < |s| => LowerChar(s[i]))
  }

  /** `lower()` on the characters above leaves no ASCII capital, and keeps
      every character other than a capital and the Kelvin sign. */
  lemma LowerFolds(s: string)
    ensures forall i :: 0 <= i < |s| ==> !('A' <= Lower(s)[i] <= 'Z')
    ensures forall i :: 0 <= i < |s| && !('A' <= s[i] <= 'Z') && s[i] != '\U{212A}' ==>
      Lower(s)[i] == s[i]
  {
  }

  lemma {:induction false} TrimLeftSpacePrefix(a: string, s: string)
    requires AllSpace(a)
    ensures TrimLeft(a + s) == TrimLeft(s)
  {
    if a == [] {
      assert a + s == s;
    } else {
      assert (a + s)[1..] == a[1..] + s;
      TrimLeftSpacePrefix(a[1..], s);
    }
  }

  lemma {:induction false} TrimLeftAppend(s: string, b: string)
    requires !AllSpace(s)
    ensures TrimLeft(s + b) == TrimLeft(s) + b
  {
    if IsSpace(s[0]) {
      assert (s + b)[1..] == s[1..] + b;
      TrimLeftAppend(s[1..], b);
    }
  }

  lemma {:induction false} TrimRightSpaceSuffix(s: string, b: string)
    requires AllSpace(b)
    ensures TrimRight(s + b) == TrimRight(s)
  {
    if b == [] {
      assert s + b == s;
    } else {
      var b' := b[..|b| - 1];
      assert (s + b)[..|s + b| - 1] == s + b';
      TrimRightSpaceSuffix(s, b');
    }
  }

  lemma {:induction false} TrimLeftSplits(s: string) returns (a: string)
    ensures AllSpace(a) && s == a + TrimLeft(s)
  {
    if s == [] || !IsSpace(s[0]) {
      a := [];
    } else {
      var a' := TrimLeftSplits(s[1..]);
      a := [s[0]] + a';
      assert s == [s[0]] + s[1..];
    }
  }

  lemma {:induction false} TrimRightSplits(s: string) returns (b: string)
    ensures AllSpace(b) && s == TrimRight(s) + b
  {
    if s == [] || !IsSpace(s[|s| - 1]) {
      b := [];
    } else {
      var s' := s[..|s| - 1];
      var b' := TrimRightSplits(s');
      b := b' + [s[|s| - 1]];
      assert s == s' + [s[|s| - 1]];
    }
  }

  /** `strip()` removes only whitespace, and only at the two ends: every text
      is its stripped form with whitespace before and after. */
  lemma StripSplits(s: string) returns (a: string, b: string)
    ensures AllSpace(a) && AllSpace(b)
    ensures s == a + Strip(s) + b
  {
    a := TrimLeftSplits(s);
    b := TrimRightSplits(TrimLeft(s));
  }

  /** Whitespace around a message does not change what `strip()` yields. */
  lemma StripSurrounded(a: string, s: string, b: string)
    requires AllSpace(a) && AllSpace(b)
    ensures Strip(a + s + b) == Strip(s)
  {
    assert a + s + b == a + (s + b);
    TrimLeftSpacePrefix(a, s + b);
    if AllSpace(s) {
      assert AllSpace(s + b);
      assert Strip(s + b) == [];
    } else {
      TrimLeftAppend(s, b);
      TrimRightSpaceSuffix(TrimLeft(s), b);
    }
  }

  lemma WordLengthOfWord(w: string, tail: string)
    requires IsWord(w)
    requires tail == [] || IsSpace(tail[0])
    ensures WordLength(w + tail) == |w|
    decreases |w|
  {
    assert (w + tail)[1..] == w[1..] + tail;
    if |w| > 1 {
      WordLengthOfWord(w[1..], tail);
    } else {
      assert w[1..] + tail == tail;
    }
  }

  /** `split()` skips a leading whitespace character. */
  lemma SplitSkipsSpace(c: char, s: string)
    requires IsSpace(c)
    ensures Split([c] + s) == Split(s)
  {
    assert ([c] + s)[1..] == s;
    assert TrimLeft([c] + s) == TrimLeft(s);
  }

  /** `split()` yields a leading run of non-whitespace, ended by whitespace
      or the end of the text, as its first word and splits the rest after it.
      With `SplitSkipsSpace` this fixes `split()` on every text. */
  lemma SplitLeadingWord(w: string, tail: string)
    requires IsWord(w)
    requires tail == [] || IsSpace(tail[0])
    ensures Split(w + tail) == [w] + Split(tail)
  {
    var s := w + tail;
    WordLengthOfWord(w, tail);
    assert TrimLeft(s) == s;
    assert s[..|w|] == w;
    assert s[|w|..] == tail;
  }

  /** `split()` undoes `" ".join(...)` on a list of words. */
  lemma {:induction false} SplitJoin(words: seq<string>)
    requires forall k :: 0 <= k < |words| ==> IsWord(words[k])
    ensures Split(Join(words)) == words
  {
    if words == [] {
    } else if |words| == 1 {
      SplitLeadingWord(words[0], []);
      assert words[0] + [] == words[0];
    } else {
      var w, rest := words[0], Join(words[1..]);
      SplitJoin(words[1..]);
      assert w + " " + rest == w + (" " + rest);
      SplitLeadingWord(w, " " + rest);
      SplitSkipsSpace(' ', rest);
      assert [w] + words[1..] == words;
    }
  }

  /** Words separated by arbitrary runs of whitespace: `name`, then each
      `gaps[k]` followed by `args[k]`. */
  function Spread(name: string, gaps: seq<string>, args: seq<string>): (r: string)
    requires |gaps| == |args|
    ensures |name| <= |r| && r[..|name|] == name
    decreases |args|
  {
    if args == [] then name else name + gaps[0] + Spread(args[0], gaps[1..], args[1..])
  }

  /** A run of whitespace in front of a text does not change its `split()`. */
  lemma SplitSkipsSpaces(gap: string, s: string)
    requires AllSpace(gap)
    ensures Split(gap + s) == Split(s)
  {
    TrimLeftSpacePrefix(gap, s);
  }

  /** `split()` recovers the words however much whitespace separates them. */
  lemma {:induction false} SplitSpread(name: string, gaps: seq<string>, args: seq<string>)
    requires |gaps| == |args|
    requires IsWord(name) && forall k :: 0 <= k < |args| ==> IsWord(args[k])
    requires forall k :: 0 <= k < |gaps| ==> gaps[k] != [] && AllSpace(gaps[k])
    ensures Split(Spread(name, gaps, args)) == [name] + args
    decreases |args|
  {
    if args == [] {
      SplitLeadingWord(name, []);
      assert name + [] == name;
    } else {
      var rest := Spread(args[0], gaps[1..], args[1..]);
      assert name + gaps[0] + rest == name + (gaps[0] + rest);
      SplitLeadingWord(name, gaps[0] + rest);
      SplitSkipsSpaces(gaps[0], rest);
      SplitSpread(args[0], gaps[1..], args[1..]);
      assert [args[0]] + args[1..] == args;
    }
  }

  /** Words separated by whitespace end on the last word's last character. */
  lemma {:induction false} SpreadEndsWithWord(name: string, gaps: seq<string>, args: seq<string>)
    requires |gaps| == |args|
    requires IsWord(name) && forall k :: 0 <= k < |args| ==> IsWord(args[k])
    ensures var r := Spread(name, gaps, args); r != [] && !IsSpace(r[|r| - 1])
    decreases |args|
  {
    if args != [] {
      SpreadEndsWithWord(args[0], gaps[1..], args[1..]);
    }
  }

  function Digit(d: nat): (c: char)
    requires d < 10
    ensures '0' <= c <= '9'
  {
    ((d + '0' as int) as char)
  }

  /** `str(n)` for a non-negative integer. */
  function Decimal(n: nat): (s: string)
    ensures s != [] && forall i :: 0 <= i < |s| ==> '0' <= s[i] <= '9'
    ensures s[0] == '0' ==> n == 0
    ensures s[0] == '0' ==> s == "0"
  {
    if n < 10 then [Digit(n)] else Decimal(n / 10) + [Digit(n % 10)]
  }

  /** `int(s)` for a string of decimal digits. */
  function DecimalValue(s: string): nat
    requires forall i :: 0 <= i < |s| ==> '0' <= s[i] <= '9'
  {
    if s == [] then 0
    else DecimalValue(s[..|s| - 1]) * 10 + (s[|s| - 1] as int - '0' as int)
  }

  /** The reported count can be read back from its decimal text. */
  lemma {:induction false} DecimalRoundTrip(n: nat)
    ensures DecimalValue(Decimal(n)) == n
  {
    if n >= 10 {
      DecimalRoundTrip(n / 10);
      var s := Decimal(n);
      assert s[..|s| - 1] == Decimal(n / 10);
    }
  }
}
