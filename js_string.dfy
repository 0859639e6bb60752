/**
 * The few pieces of JavaScript's string semantics that the release-notes
 * script relies on: `indexOf`, one-argument `substring`, `split` and `join`
 * with a literal separator, the decimal rendering of a number that `+`
 * performs, and the `\s` character class of its regular expressions.
 */
module JsString {

  /** `\s` in a JavaScript regular expression: the WhiteSpace and LineTerminator code points. */
  predicate IsWhitespace(c: char) {
    var k := c as int;
    k == 0x09 || k == 0x0A || k == 0x0B || k == 0x0C || k == 0x0D || k == 0x20
    || k == 0xA0 || k == 0x1680 || (0x2000 <= k <= 0x200A) || k == 0x2028 || k == 0x2029
    || k == 0x202F || k == 0x205F || k == 0x3000 || k == 0xFEFF
  }

  /** `pat` occurs in `s` starting at position `i`. */
  predicate OccursAt(s: string, pat: string, i: int) {
    0 <= i && i + |pat| <= |s| && s[i..i + |pat|] == pat
  }

  /** The first occurrence of `pat` at or after `from`, or -1. */
  function IndexFrom(s: string, pat: string, from: nat): (r: int)
    ensures r == -1 || from <= r <= |s|
    decreases |s| - from
  {
    if from + |pat| > |s| then -1
    else if s[from..from + |pat|] == pat then from
    else IndexFrom(s, pat, from + 1)
  }

  lemma {:induction false} IndexFromFirst(s: string, pat: string, from: nat)
    ensures IndexFrom(s, pat, from) == -1 <==> forall j :: from <= j ==> !OccursAt(s, pat, j)
    ensures IndexFrom(s, pat, from) != -1 ==> OccursAt(s, pat, IndexFrom(s, pat, from))
    ensures forall j :: from <= j < IndexFrom(s, pat, from) ==> !OccursAt(s, pat, j)
    decreases |s| - from
  {
    if from + |pat| > |s| {
    } else if s[from..from + |pat|] == pat {
      assert OccursAt(s, pat, from);
    } else {
      IndexFromFirst(s, pat, from + 1);
    }
  }

  /** `s.indexOf(pat)`: the first position where `pat` occurs in `s`, or -1 when it does not occur. */
  function IndexOf(s: string, pat: string): (r: int)
    ensures -1 <= r <= |s|
  {
    IndexFrom(s, pat, 0)
  }

  /** `indexOf` gives -1 exactly when `pat` does not occur, and otherwise the first position where it does. */
  lemma IndexOfFirst(s: string, pat: string)
    ensures IndexOf(s, pat) == -1 <==> forall j :: !OccursAt(s, pat, j)
    ensures IndexOf(s, pat) != -1 ==> OccursAt(s, pat, IndexOf(s, pat))
    ensures forall j :: j < IndexOf(s, pat) ==> !OccursAt(s, pat, j)
  {
    IndexFromFirst(s, pat, 0);
  }

  /** `s.substring(start)`: a start below 0 counts as 0, one beyond the end as the end. */
  function Substring(s: string, start: int): (r: string)
    ensures start <= 0 ==> r == s
    ensures 0 <= start <= |s| ==> r == s[start..]
    ensures start >= |s| ==> r == []
  {
    if start <= 0 then s else if start >= |s| then [] else s[start..]
  }

  /** Appending in two steps is appending the two pieces at once. */
  lemma AppendAssoc(a: string, b: string, c: string)
    ensures (a + b) + c == a + (b + c)
  {
  }

  /** The four pieces of a concatenation can be sliced back out of it. */
  lemma Pieces(w: string, x: string, y: string, z: string)
    ensures var s := w + x + y + z;
      s[..|w|] == w && s[|w|..|w| + |x|] == x
      && s[|w| + |x|..|s| - |z|] == y && s[|s| - |z|..] == z
  {
  }

  /** `parts.join(sep)`. */
  function Join(parts: seq<string>, sep: string): string {
    if |parts| == 0 then []
    else if |parts| == 1 then parts[0]
    else parts[0] + sep + Join(parts[1..], sep)
  }

  /**
   * `s.split(sep)` for a one-character separator: the pieces between
   * consecutive occurrences of `sep`, so a string with n separators
   * gives n + 1 pieces, and the empty string gives one empty piece.
   */
  function Split(s: string, sep: char): (parts: seq<string>)
    ensures |parts| >= 1
    ensures forall i :: 0 <= i < |parts| ==> sep !in parts[i]
  {
    if s == [] then [[]]
    else
      var rest := Split(s[1..], sep);
      if s[0] == sep then [[]] + rest
      else [[s[0]] + rest[0]] + rest[1..]
  }

  /** Joining a non-empty list after one more piece puts a separator between them. */
  lemma JoinCons(p: string, rest: seq<string>, sep: string)
    requires |rest| >= 1
    ensures Join([p] + rest, sep) == p + sep + Join(rest, sep)
  {
    assert ([p] + rest)[1..] == rest;
  }

  /** Prepending a character to the first piece prepends it to the join. */
  lemma JoinPrepend(c: char, parts: seq<string>, sep: string)
    requires |parts| >= 1
    ensures Join([[c] + parts[0]] + parts[1..], sep) == [c] + Join(parts, sep)
  {
    if |parts| > 1 {
      JoinCons([c] + parts[0], parts[1..], sep);
      JoinCons(parts[0], parts[1..], sep);
      assert [parts[0]] + parts[1..] == parts;
    }
  }

  /** Joining the pieces back with the separator gives the original string. */
  lemma {:induction false} JoinSplit(s: string, sep: char)
    ensures Join(Split(s, sep), [sep]) == s
  {
    if s != [] {
      JoinSplit(s[1..], sep);
      var rest := Split(s[1..], sep);
      if s[0] == sep {
        JoinCons([], rest, [sep]);
      } else {
        JoinPrepend(s[0], rest, [sep]);
      }
      assert [s[0]] + s[1..] == s;
    }
  }

  lemma {:induction false} SplitNoSeparator(s: string, sep: char)
    requires sep !in s
    ensures Split(s, sep) == [s]
  {
    if s != [] {
      SplitNoSeparator(s[1..], sep);
      assert [s[0]] + s[1..] == s;
    }
  }

  lemma {:induction false} SplitAtSeparator(a: string, sep: char, b: string)
    requires sep !in a
    ensures Split(a + [sep] + b, sep) == [a] + Split(b, sep)
  {
    if a == [] {
      assert a + [sep] + b == [sep] + b;
      assert ([sep] + b)[1..] == b;
    } else {
      SplitAtSeparator(a[1..], sep, b);
      assert (a + [sep] + b)[1..] == a[1..] + [sep] + b;
      assert [a[0]] + a[1..] == a;
    }
  }

  /** Splitting undoes joining, when no piece contains the separator: the pieces are determined by the string. */
  lemma {:induction false} SplitJoin(parts: seq<string>, sep: char)
    requires |parts| >= 1
    requires forall i :: 0 <= i < |parts| ==> sep !in parts[i]
    ensures Split(Join(parts, [sep]), sep) == parts
  {
    if |parts| == 1 {
      SplitNoSeparator(parts[0], sep);
    } else {
      SplitJoin(parts[1..], sep);
      SplitAtSeparator(parts[0], sep, Join(parts[1..], [sep]));
      assert parts[0] + [sep] + Join(parts[1..], [sep]) == Join(parts, [sep]);
      assert [parts[0]] + parts[1..] == parts;
    }
  }

  /** The first piece of a join is a prefix of the joined string. */
  lemma {:induction false} JoinHead(parts: seq<string>, sep: string)
    requires |parts| >= 1
    ensures parts[0] <= Join(parts, sep)
    ensures |parts| >= 2 ==> Join(parts, sep)[..|parts[0]| + |sep|] == parts[0] + sep
  {
    if |parts| >= 2 {
      assert Join(parts, sep) == (parts[0] + sep) + Join(parts[1..], sep);
    }
  }

  /** The decimal digit character for `d`. */
  function Digit(d: nat): (c: char)
    requires d < 10
    ensures '0' <= c <= '9' && c as int - '0' as int == d
  {
    ('0' as int + d) as char
  }

  /** The decimal text JavaScript produces when a non-negative integer is concatenated to a string. */
  function NatToString(n: nat): (s: string)
    ensures |s| >= 1
    ensures forall i :: 0 <= i < |s| ==> '0' <= s[i] <= '9'
    ensures |s| > 1 ==> s[0] != '0'
  {
    if n < 10 then [Digit(n)] else NatToString(n / 10) + [Digit(n % 10)]
  }

  /** The number a string of decimal digits denotes. */
  function DecimalValue(s: string): nat
    requires forall i :: 0 <= i < |s| ==> '0' <= s[i] <= '9'
  {
    if s == [] then 0
    else DecimalValue(s[..|s| - 1]) * 10 + (s[|s| - 1] as int - '0' as int)
  }

  /** Rendering a number and reading the digits back gives the number again. */
  lemma {:induction false} DecimalRoundTrip(n: nat)
    ensures DecimalValue(NatToString(n)) == n
  {
    if n >= 10 {
      DecimalRoundTrip(n / 10);
      var s := NatToString(n);
      assert s[..|s| - 1] == NatToString(n / 10);
    }
  }

  /** Distinct numbers render to distinct texts. */
  lemma NatToStringInjective(m: nat, n: nat)
    requires NatToString(m) == NatToString(n)
    ensures m == n
  {
    DecimalRoundTrip(m);
    DecimalRoundTrip(n);
  }

}
