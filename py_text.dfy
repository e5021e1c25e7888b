/**
  The parts of Python's `str` and `int` that the /proc parsers of the status
  server rely on: `isspace`, `split()`, `split(sep)`, `strip()`, `sub in s`,
  `startswith`, `replace(c, '')` and `int(s)`, each stated over `string`.
 */
module PyText {
  import opened Wrappers

  /** The exceptions the parsers can raise. */
  datatype PyError = IndexError | ValueError | KeyError

  // ---------------------------------------------------------------------
  // Whitespace, `split()` and `strip()`
  // ---------------------------------------------------------------------

  /** `c.isspace()`: the characters that `split()` and `strip()` treat as whitespace. */
  predicate IsSpace(c: char) {
    var n := c as int;
    (0x09 <= n <= 0x0D) || (0x1C <= n <= 0x20) || n == 0x85 || n == 0xA0 || n == 0x1680
    || (0x2000 <= n <= 0x200A) || n == 0x2028 || n == 0x2029 || n == 0x202F || n == 0x205F
    || n == 0x3000
  }

  predicate NoSpace(s: string) {
    forall i | 0 <= i < |s| :: !IsSpace(s[i])
  }

  /** Length of the run of non-space characters that starts `s`. */
  function WordLength(s: string): (n: nat)
    ensures n <= |s|
    ensures forall i | 0 <= i < n :: !IsSpace(s[i])
    ensures n < |s| ==> IsSpace(s[n])
  {
    if s == [] || IsSpace(s[0]) then 0 else 1 + WordLength(s[1..])
  }

  /** `s.split()`: the maximal runs of non-space characters, in order. */
  function Split(s: string): (words: seq<string>)
    ensures forall k | 0 <= k < |words| :: words[k] != [] && NoSpace(words[k])
    decreases |s|
  {
    if s == [] then []
    else if IsSpace(s[0]) then Split(s[1..])
    else
      var n := WordLength(s);
      [s[..n]] + Split(s[n..])
  }

  /** `" ".join(words)` */
  function JoinSpaced(words: seq<string>): string {
    if words == [] then ""
    else if |words| == 1 then words[0]
    else words[0] + " " + JoinSpaced(words[1..])
  }

  lemma {:induction false} WordLengthOfWord(w: string, t: string)
    requires NoSpace(w)
    requires t == [] || IsSpace(t[0])
    ensures WordLength(w + t) == |w|
  {
    if w != [] {
      assert (w + t)[1..] == w[1..] + t;
      WordLengthOfWord(w[1..], t);
    }
  }

  /** Splitting words joined by single spaces gives the words back. */
  lemma {:induction false} SplitJoinSpaced(words: seq<string>)
    requires forall k | 0 <= k < |words| :: words[k] != [] && NoSpace(words[k])
    ensures Split(JoinSpaced(words)) == words
  {
    if words == [] {
    } else if |words| == 1 {
      var w := words[0];
      WordLengthOfWord(w, []);
      assert w + [] == w;
      assert w[|w|..] == [];
    } else {
      var w := words[0];
      var rest := JoinSpaced(words[1..]);
      var s := w + " " + rest;
      assert s == w + (" " + rest);
      WordLengthOfWord(w, " " + rest);
      assert s[..|w|] == w;
      assert s[|w|..] == " " + rest;
      assert (" " + rest)[1..] == rest;
      SplitJoinSpaced(words[1..]);
    }
  }

  predicate AllSpace(s: string) {
    forall i | 0 <= i < |s| :: IsSpace(s[i])
  }

  /** What `split()` can return: non-empty words without whitespace. */
  predicate Words(words: seq<string>) {
    forall k | 0 <= k < |words| :: words[k] != [] && NoSpace(words[k])
  }

  /** Whitespace runs that can surround `n` words: any run at either end, at
      least one character between two words. */
  predicate Gaps(gaps: seq<string>, n: nat) {
    && |gaps| == n + 1
    && (forall k | 0 <= k < |gaps| :: AllSpace(gaps[k]))
    && (forall k | 0 < k < n :: gaps[k] != [])
  }

  /** `gaps[0] + words[0] + gaps[1] + ... + words[n - 1] + gaps[n]` */
  function Spaced(gaps: seq<string>, words: seq<string>): string
    requires |gaps| == |words| + 1
    decreases |words|
  {
    if words == [] then gaps[0] else gaps[0] + words[0] + Spaced(gaps[1..], words[1..])
  }

  /** Leading whitespace does not change `split()`. */
  lemma {:induction false} SplitSkipsSpace(w: string, s: string)
    requires AllSpace(w)
    ensures Split(w + s) == Split(s)
    decreases |w|
  {
    if w != [] {
      assert (w + s)[0] == w[0] && (w + s)[1..] == w[1..] + s;
      SplitSkipsSpace(w[1..], s);
    } else {
      assert w + s == s;
    }
  }

  /** A word followed by whitespace or the end is the first word of `split()`. */
  lemma SplitWordThen(w: string, t: string)
    requires w != [] && NoSpace(w)
    requires t == [] || IsSpace(t[0])
    ensures Split(w + t) == [w] + Split(t)
  {
    WordLengthOfWord(w, t);
    assert (w + t)[..|w|] == w && (w + t)[|w|..] == t;
  }

  /** An indented word followed by whitespace or the end is the first word
      of `split()`. */
  lemma SplitIndentedWord(indent: string, field: string, rest: string)
    requires AllSpace(indent) && field != [] && NoSpace(field)
    requires rest == [] || IsSpace(rest[0])
    ensures Split(indent + field + rest) == [field] + Split(rest)
  {
    assert indent + field + rest == indent + (field + rest);
    SplitSkipsSpace(indent, field + rest);
    SplitWordThen(field, rest);
  }

  /** `split()` gives back the words, whatever whitespace runs surround them. */
  lemma {:induction false} SplitSpaced(gaps: seq<string>, words: seq<string>)
    requires Gaps(gaps, |words|) && Words(words)
    ensures Split(Spaced(gaps, words)) == words
    decreases |words|
  {
    if words == [] {
      SplitSkipsSpace(gaps[0], []);
      assert gaps[0] + [] == gaps[0];
    } else {
      var rest := Spaced(gaps[1..], words[1..]);
      assert Spaced(gaps, words) == gaps[0] + (words[0] + rest);
      SplitSkipsSpace(gaps[0], words[0] + rest);
      assert rest == [] || IsSpace(rest[0]) by {
        if |words| > 1 {
          assert gaps[1] != [] && rest[0] == gaps[1][0];
        }
      }
      SplitWordThen(words[0], rest);
      SplitSpaced(gaps[1..], words[1..]);
    }
  }

  /** What `lstrip()` keeps. */
  function TrimStart(s: string): (r: string)
    ensures |r| <= |s|
    ensures r == [] || !IsSpace(r[0])
    ensures forall i | 0 <= i < |s| - |r| :: IsSpace(s[i])
  {
    if s != [] && IsSpace(s[0]) then TrimStart(s[1..]) else s
  }

  /** `lstrip()` keeps a suffix. */
  lemma {:induction false} TrimStartSuffix(s: string)
    ensures TrimStart(s) == s[|s| - |TrimStart(s)|..]
    decreases |s|
  {
    if s != [] && IsSpace(s[0]) {
      var r := TrimStart(s[1..]);
      TrimStartSuffix(s[1..]);
      assert s[1..][|s| - 1 - |r|..] == s[|s| - |r|..];
    }
  }

  /** What `rstrip()` keeps. */
  function TrimEnd(s: string): (r: string)
    ensures |r| <= |s| && r == s[..|r|]
    ensures r == [] || !IsSpace(r[|r| - 1])
    ensures forall i | |r| <= i < |s| :: IsSpace(s[i])
  {
    if s != [] && IsSpace(s[|s| - 1]) then TrimEnd(s[..|s| - 1]) else s
  }

  /** `s.strip()` */
  function Strip(s: string): (r: string)
    ensures r == [] || (!IsSpace(r[0]) && !IsSpace(r[|r| - 1]))
  {
    var t := TrimStart(s);
    var r := TrimEnd(t);
    assert r != [] ==> r[0] == t[0];
    r
  }

  /** `strip()` only removes characters. */
  lemma StripInside(s: string, c: char)
    requires c !in s
    ensures c !in Strip(s)
  {
    var t := TrimStart(s);
    TrimStartSuffix(s);
    assert forall i | 0 <= i < |t| :: t[i] == s[|s| - |t| + i];
  }

  /** A string that neither starts nor ends with whitespace is its own strip. */
  lemma StripFixed(s: string)
    requires s == [] || (!IsSpace(s[0]) && !IsSpace(s[|s| - 1]))
    ensures Strip(s) == s
  {
  }

  /** `strip()` is idempotent. */
  lemma StripIdempotent(s: string)
    ensures Strip(Strip(s)) == Strip(s)
  {
    StripFixed(Strip(s));
  }

  // ---------------------------------------------------------------------
  // `split(sep)`
  // ---------------------------------------------------------------------

  /** `s.split(sep)` for a one-character separator: the pieces between separators. */
  function SplitOn(s: string, sep: char): (parts: seq<string>)
    ensures |parts| >= 1
    ensures forall k | 0 <= k < |parts| :: sep !in parts[k]
    ensures |parts| >= 2 <==> sep in s
  {
    if s == [] then [""]
    else
      var rest := SplitOn(s[1..], sep);
      if s[0] == sep then [""] + rest
      else
        assert s == [s[0]] + s[1..];
        [[s[0]] + rest[0]] + rest[1..]
  }

  /** `sep.join(parts)` */
  function JoinWith(parts: seq<string>, sep: char): string {
    if parts == [] then ""
    else if |parts| == 1 then parts[0]
    else parts[0] + [sep] + JoinWith(parts[1..], sep)
  }

  /** Joining the pieces of `s.split(sep)` with `sep` gives `s` back. */
  lemma {:induction false} JoinSplitOn(s: string, sep: char)
    ensures JoinWith(SplitOn(s, sep), sep) == s
  {
    if s != [] {
      var rest := SplitOn(s[1..], sep);
      JoinSplitOn(s[1..], sep);
      if s[0] == sep {
        assert ([""] + rest)[1..] == rest;
      } else if |rest| > 1 {
        var parts := [[s[0]] + rest[0]] + rest[1..];
        assert parts[1..] == rest[1..];
      }
    }
  }

  lemma {:induction false} SplitOnPiece(p: string, t: string, sep: char)
    requires sep !in p
    ensures SplitOn(p + [sep] + t, sep) == [p] + SplitOn(t, sep)
  {
    if p != [] {
      assert (p + [sep] + t)[1..] == p[1..] + [sep] + t;
      SplitOnPiece(p[1..], t, sep);
      assert [p[0]] + p[1..] == p;
    } else {
      assert (p + [sep] + t)[1..] == t;
    }
  }

  lemma {:induction false} SplitOnWithout(p: string, sep: char)
    requires sep !in p
    ensures SplitOn(p, sep) == [p]
  {
    if p != [] {
      SplitOnWithout(p[1..], sep);
      assert [p[0]] + p[1..] == p;
    }
  }

  /** Splitting pieces joined with `sep` gives the pieces back. */
  lemma {:induction false} SplitOnJoinWith(parts: seq<string>, sep: char)
    requires |parts| >= 1
    requires forall k | 0 <= k < |parts| :: sep !in parts[k]
    ensures SplitOn(JoinWith(parts, sep), sep) == parts
  {
    if |parts| == 1 {
      SplitOnWithout(parts[0], sep);
    } else {
      SplitOnJoinWith(parts[1..], sep);
      SplitOnPiece(parts[0], JoinWith(parts[1..], sep), sep);
    }
  }

  /** `s.split(sep)[1]` is the text between the first `sep` and the next one,
      or the end. */
  lemma PieceAfterFirst(before: string, value: string, rest: string, sep: char)
    requires sep !in before && sep !in value
    requires rest == [] || rest[0] == sep
    ensures var parts := SplitOn(before + [sep] + value + rest, sep);
            |parts| >= 2 && parts[1] == value
  {
    var line, tail := before + [sep] + value + rest, value + rest;
    assert line == before + [sep] + tail;
    SplitOnPiece(before, tail, sep);
    FirstPiece(value, rest, sep);
    assert SplitOn(line, sep)[1] == SplitOn(tail, sep)[0];
  }

  /** `s.split(sep)[0]` is the text before the first `sep`, or all of `s`. */
  lemma FirstPiece(value: string, rest: string, sep: char)
    requires sep !in value
    requires rest == [] || rest[0] == sep
    ensures SplitOn(value + rest, sep)[0] == value
  {
    if rest == [] {
      assert value + rest == value;
      SplitOnWithout(value, sep);
    } else {
      assert value + rest == value + [sep] + rest[1..];
      SplitOnPiece(value, rest[1..], sep);
    }
  }

  // ---------------------------------------------------------------------
  // `sub in s`, `startswith`, `replace(c, '')`
  // ---------------------------------------------------------------------

  predicate OccursAt(s: string, sub: string, i: nat) {
    i + |sub| <= |s| && s[i..i + |sub|] == sub
  }

  /** `sub in s` */
  predicate Contains(s: string, sub: string) {
    exists i | 0 <= i <= |s| :: OccursAt(s, sub, i)
  }

  /** A string lacking one of the characters of `sub` does not contain `sub`. */
  lemma NotContainedWithout(s: string, sub: string, c: char)
    requires c in sub && c !in s
    ensures !Contains(s, sub)
  {
  }

  /** A string containing `sub` contains every character of `sub`. */
  lemma ContainsChar(s: string, sub: string, c: char)
    requires Contains(s, sub) && c in sub
    ensures c in s
  {
    var i: nat :| i <= |s| && OccursAt(s, sub, i);
    var k :| 0 <= k < |sub| && sub[k] == c;
    assert s[i + k] == s[i..i + |sub|][k];
  }

  /** `s.startswith(prefix)` */
  predicate StartsWith(s: string, prefix: string) {
    |prefix| <= |s| && s[..|prefix|] == prefix
  }

  /** `s.replace(c, '')` */
  function RemoveChar(s: string, c: char): (r: string)
    ensures forall i | 0 <= i < |r| :: r[i] != c
    ensures c !in s ==> r == s
  {
    if s == [] then []
    else
      var rest := RemoveChar(s[1..], c);
      if s[0] == c then rest
      else
        assert s == [s[0]] + s[1..];
        [s[0]] + rest
  }

  /** `replace(c, '')` drops every `c` and keeps every other character as
      often as it occurs. */
  lemma {:induction false} RemoveCharCount(s: string, c: char)
    ensures multiset(RemoveChar(s, c)) == multiset(s)[c := 0]
    decreases |s|
  {
    if s != [] {
      RemoveCharCount(s[1..], c);
      assert s == [s[0]] + s[1..];
      assert multiset(s) == multiset{s[0]} + multiset(s[1..]);
    }
  }

  /** `replace(c, '')` works piece by piece, so it keeps the order of what
      it keeps. */
  lemma {:induction false} RemoveCharConcat(a: string, b: string, c: char)
    ensures RemoveChar(a + b, c) == RemoveChar(a, c) + RemoveChar(b, c)
    decreases |a|
  {
    if a != [] {
      assert (a + b)[0] == a[0] && (a + b)[1..] == a[1..] + b;
      RemoveCharConcat(a[1..], b, c);
      var x, y := RemoveChar(a[1..], c), RemoveChar(b, c);
      assert [a[0]] + (x + y) == ([a[0]] + x) + y;
    } else {
      assert a + b == b;
    }
  }

  // ---------------------------------------------------------------------
  // `int(s)` and `str(n)`
  // ---------------------------------------------------------------------

  predicate IsDigit(c: char) {
    '0' <= c <= '9'
  }

  predicate AllDigits(s: string) {
    forall i | 0 <= i < |s| :: IsDigit(s[i])
  }

  /** Digits as `int()` accepts them: ASCII digits, with single underscores between digits. */
  predicate IsDecimalLiteral(s: string) {
    && |s| > 0
    && IsDigit(s[0])
    && IsDigit(s[|s| - 1])
    && (forall i | 0 <= i < |s| :: IsDigit(s[i]) || s[i] == '_')
    && (forall i | 0 <= i < |s| - 1 :: s[i] == '_' ==> s[i + 1] != '_')
  }

  /** The value of a string of decimal digits, most significant first. */
  function DigitsValue(s: string): nat
    requires AllDigits(s)
  {
    if s == [] then 0 else 10 * DigitsValue(s[..|s| - 1]) + (s[|s| - 1] as int - '0' as int)
  }

  /** The value of a literal's digits, most significant first; the
      underscores between them carry no value. */
  function LiteralValue(s: string): nat
    requires forall i | 0 <= i < |s| :: IsDigit(s[i]) || s[i] == '_'
  {
    if s == [] then 0
    else
      var init, last := s[..|s| - 1], s[|s| - 1];
      assert forall i | 0 <= i < |init| :: init[i] == s[i];
      if last == '_' then LiteralValue(init)
      else
        assert IsDigit(s[|s| - 1]);
        10 * LiteralValue(init) + (last as int - '0' as int)
  }

  /** `int(s)`: `None` where Python raises ValueError. */
  function ParseInt(s: string): (r: Option<int>)
    ensures r.Some? ==> Strip(s) != []
  {
    var t := Strip(s);
    if |t| > 0 && (t[0] == '-' || t[0] == '+') then
      if IsDecimalLiteral(t[1..]) then
        var v: int := LiteralValue(t[1..]);
        Some(if t[0] == '-' then -v else v)
      else None
    else if IsDecimalLiteral(t) then Some(LiteralValue(t))
    else None
  }

  /** `int()` raises ValueError on a blank string, and on a character other
      than a digit or `_` anywhere but a leading sign. */
  lemma ParseIntRejects(s: string, i: nat)
    requires i < |Strip(s)|
    requires var c := Strip(s)[i];
             !IsDigit(c) && c != '_' && !(i == 0 && (c == '-' || c == '+'))
    ensures ParseInt(s) == None
  {
    var t := Strip(s);
    if t[0] == '-' || t[0] == '+' {
      assert t[1..][i - 1] == t[i];
    }
  }

  function DigitChar(d: nat): (c: char)
    requires d < 10
    ensures IsDigit(c) && c as int - '0' as int == d
  {
    ('0' as int + d) as char
  }

  /** `str(n)` for a non-negative `n`. */
  function ToDecimal(n: nat): (s: string)
    ensures s != [] && AllDigits(s)
  {
    if n < 10 then [DigitChar(n)] else ToDecimal(n / 10) + [DigitChar(n % 10)]
  }

  lemma {:induction false} DigitsValueToDecimal(n: nat)
    ensures DigitsValue(ToDecimal(n)) == n
  {
    if n >= 10 {
      var s := ToDecimal(n);
      assert s[..|s| - 1] == ToDecimal(n / 10);
      DigitsValueToDecimal(n / 10);
    }
  }

  /** A string of ASCII digits is its own strip. */
  lemma StripDigits(s: string)
    requires AllDigits(s)
    ensures Strip(s) == s
  {
    if s != [] {
      assert IsDigit(s[0]) && IsDigit(s[|s| - 1]);
      StripFixed(s);
    }
  }

  /** `int()` of a non-empty string of ASCII digits is its decimal value. */
  lemma ParseIntDigits(s: string)
    requires s != [] && AllDigits(s)
    ensures ParseInt(s) == Some(DigitsValue(s))
  {
    StripDigits(s);
    DigitsAreLiteral(s);
  }

  /** A non-empty string of ASCII digits is a literal `int()` accepts. */
  lemma DigitsAreLiteral(s: string)
    requires s != [] && AllDigits(s)
    ensures IsDecimalLiteral(s) && LiteralValue(s) == DigitsValue(s)
  {
    DigitsValueWithoutUnderscores(s);
  }

  /** Without underscores, a literal's value is the value of its digits. */
  lemma {:induction false} DigitsValueWithoutUnderscores(s: string)
    requires AllDigits(s)
    ensures LiteralValue(s) == DigitsValue(s)
  {
    if s != [] {
      var init := s[..|s| - 1];
      assert AllDigits(init) by {
        assert forall i | 0 <= i < |init| :: init[i] == s[i];
      }
      DigitsValueWithoutUnderscores(init);
    }
  }

  /** `int(str(n)) == n` */
  lemma ParseIntToDecimal(n: nat)
    ensures ParseInt(ToDecimal(n)) == Some(n)
  {
    ParseIntDigits(ToDecimal(n));
    DigitsValueToDecimal(n);
  }

  /** A leading sign before the digits of `n` gives `-n` or `n`. */
  lemma ParseIntSigned(n: nat)
    ensures ParseInt("-" + ToDecimal(n)) == Some(-(n as int))
    ensures ParseInt("+" + ToDecimal(n)) == Some(n)
  {
    var d := ToDecimal(n);
    DigitsAreLiteral(d);
    DigitsValueToDecimal(n);
    var minus, plus := "-" + d, "+" + d;
    assert minus[1..] == d && plus[1..] == d;
    assert minus[|minus| - 1] == d[|d| - 1] && plus[|plus| - 1] == d[|d| - 1];
    StripFixed(minus);
    StripFixed(plus);
  }

  // ---------------------------------------------------------------------
  // Finding lines
  // ---------------------------------------------------------------------

  /** Index of the first line containing `pat`, or `|lines|` when none does. */
  function FirstWith(lines: seq<string>, pat: string): (i: nat)
    ensures i <= |lines|
    ensures forall j | 0 <= j < i :: !Contains(lines[j], pat)
    ensures i < |lines| ==> Contains(lines[i], pat)
  {
    if lines == [] || Contains(lines[0], pat) then 0 else 1 + FirstWith(lines[1..], pat)
  }

  /** Index of the last line containing `pat`, or -1 when none does. */
  function LastWith(lines: seq<string>, pat: string): (i: int)
    ensures -1 <= i < |lines|
    ensures forall j | i < j < |lines| :: !Contains(lines[j], pat)
    ensures 0 <= i ==> Contains(lines[i], pat)
  {
    if lines == [] then -1
    else
      var i := LastWith(lines[1..], pat);
      if 0 <= i then i + 1
      else if Contains(lines[0], pat) then 0
      else -1
  }

  /** `lines[2:]`: what is left after a two-line header. */
  function AfterHeader(lines: seq<string>): (rows: seq<string>)
    ensures |lines| >= 2 ==> lines == lines[..2] + rows
    ensures |lines| < 2 ==> rows == []
  {
    if |lines| < 2 then [] else lines[2..]
  }
}
