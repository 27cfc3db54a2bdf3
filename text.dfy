/**
 * The JavaScript string primitives the parser relies on: `trim`, `charAt(0)`,
 * ASCII `toUpperCase`/`toLowerCase` and `split` on a one-character separator.
 */
module Text {
  type String = seq<char>

  /** ECMAScript LineTerminator: `.` in a regular expression without the `s` flag stops here. */
  predicate IsLineTerminator(c: char) {
    c == '\n' || c == '\r' || c == '\U{2028}' || c == '\U{2029}'
  }

  /** ECMAScript WhiteSpace or LineTerminator: what `String.prototype.trim` removes. */
  predicate IsWhiteSpace(c: char) {
    IsLineTerminator(c) || c == '\t' || c == '\U{000B}' || c == '\U{000C}' || c == ' '
    || c == '\U{00A0}' || c == '\U{1680}' || ('\U{2000}' <= c <= '\U{200A}')
    || c == '\U{202F}' || c == '\U{205F}' || c == '\U{3000}' || c == '\U{FEFF}'
  }

  predicate AllWhiteSpace(s: String) {
    forall i :: 0 <= i < |s| ==> IsWhiteSpace(s[i])
  }

  /** Neither starts nor ends with white space. */
  predicate IsTrimmed(s: String) {
    s == [] || (!IsWhiteSpace(s[0]) && !IsWhiteSpace(s[|s| - 1]))
  }

  /** Holds no line terminator, so a `.`-only regex group can match all of it. */
  predicate SingleLine(s: String) {
    forall i :: 0 <= i < |s| ==> !IsLineTerminator(s[i])
  }

  /** Drops the leading white space: the rest of `s` from its first non-space character. */
  function TrimStart(s: String): (r: String)
    ensures |r| <= |s| && r == s[|s| - |r|..]
    ensures AllWhiteSpace(s[..|s| - |r|])
    ensures r == [] || !IsWhiteSpace(r[0])
  {
    if s != [] && IsWhiteSpace(s[0]) then TrimStart(s[1..]) else s
  }

  /** Drops the trailing white space. */
  function TrimEnd(s: String): (r: String)
    ensures |r| <= |s| && r == s[..|r|]
    ensures AllWhiteSpace(s[|r|..])
    ensures r == [] || !IsWhiteSpace(r[|r| - 1])
  {
    if s != [] && IsWhiteSpace(s[|s| - 1]) then TrimEnd(s[..|s| - 1]) else s
  }

  /** `String.prototype.trim`: white space removed at both ends. */
  function Trim(s: String): (r: String)
    ensures IsTrimmed(r) && |r| <= |s|
  {
    TrimEnd(TrimStart(s))
  }

  /**
   * `trim` removes white space and nothing else, and only at the two ends:
   * the result is the slice of `s` between a white-space prefix and a
   * white-space suffix.
   */
  lemma TrimRemovesOnlyWhiteSpace(s: String)
    ensures var a := |s| - |TrimStart(s)|;
            && a + |Trim(s)| <= |s|
            && Trim(s) == s[a..a + |Trim(s)|]
            && AllWhiteSpace(s[..a]) && AllWhiteSpace(s[a + |Trim(s)|..])
  {
    hide TrimStart, TrimEnd, IsWhiteSpace;
    var t := TrimStart(s);
    var r := TrimEnd(t);
    SliceOfSuffix(s, |s| - |t|, |r|);
  }

  /** Text that is already trimmed is left alone. */
  lemma TrimOfTrimmed(s: String)
    requires IsTrimmed(s)
    ensures Trim(s) == s
  {
  }

  /** Text made only of white space trims to "". */
  lemma {:induction false} TrimOfBlank(s: String)
    requires AllWhiteSpace(s)
    ensures Trim(s) == []
  {
    if s != [] {
      TrimOfBlank(s[1..]);
    }
  }

  /** Slicing a suffix is slicing the whole. */
  lemma SliceOfSuffix(s: String, a: nat, n: nat)
    requires a + n <= |s|
    ensures s[a..][..n] == s[a..a + n]
    ensures s[a..][n..] == s[a + n..]
  {
  }

  /** A slice of a slice is a slice of the whole. */
  lemma SliceOfSlice(s: String, i: nat, j: nat, a: nat, b: nat)
    requires i <= j <= |s| && a <= b <= j - i
    ensures s[i..j][a..b] == s[i + a..i + b]
  {
    forall k | 0 <= k < b - a ensures s[i..j][a..b][k] == s[i + a..i + b][k] {
      assert s[i..j][a..b][k] == s[i..j][a + k] == s[i + a + k];
    }
  }

  /** Concatenation is associative. */
  lemma ConcatAssoc(a: String, b: String, c: String)
    ensures a + (b + c) == (a + b) + c
  {
  }

  /** Case mapping a second time changes nothing, and upper-casing ignores a prior lower-casing. */
  lemma CaseMappingsSettle(c: char)
    ensures ToUpper(ToUpper(c)) == ToUpper(c) && ToLower(ToLower(c)) == ToLower(c)
    ensures ToUpper(ToLower(c)) == ToUpper(c)
  {
  }

  /** Where `a + b + c` lies in `s`, each part lies one after the other. */
  lemma ThreeParts(s: String, i: nat, a: String, b: String, c: String)
    requires i + |a + b + c| <= |s| && s[i..i + |a + b + c|] == a + b + c
    ensures s[i..i + |a|] == a
    ensures s[i + |a|..i + |a| + |b|] == b
    ensures s[i + |a| + |b|..i + |a| + |b| + |c|] == c
  {
    var w := a + b + c;
    assert w[..|a|] == a && w[|a|..|a| + |b|] == b && w[|a| + |b|..] == c;
    SliceOfSlice(s, i, i + |w|, 0, |a|);
    SliceOfSlice(s, i, i + |w|, |a|, |a| + |b|);
    SliceOfSlice(s, i, i + |w|, |a| + |b|, |w|);
  }

  /** A slice of single-line text is single-line. */
  lemma SliceKeepsSingleLine(s: String, a: nat, b: nat)
    requires SingleLine(s) && a <= b <= |s|
    ensures SingleLine(s[a..b])
  {
    forall i | 0 <= i < b - a ensures !IsLineTerminator(s[a..b][i]) {
      assert s[a..b][i] == s[a + i];
    }
  }

  /** Text made of characters of single-line text is single-line. */
  lemma SubMultisetKeepsSingleLine(r: String, s: String)
    requires SingleLine(s) && multiset(r) <= multiset(s)
    ensures SingleLine(r)
  {
    forall i | 0 <= i < |r| ensures !IsLineTerminator(r[i]) {
      assert r[i] in multiset(r);
      assert r[i] in s;
    }
  }

  /** Trimming single-line text leaves it single-line. */
  lemma TrimKeepsSingleLine(s: String)
    requires SingleLine(s)
    ensures SingleLine(Trim(s))
  {
    var t := TrimStart(s);
    SliceKeepsSingleLine(s, |s| - |t|, |s|);
    SliceKeepsSingleLine(t, 0, |TrimEnd(t)|);
  }

  /** `s.charAt(0)`: the first character, or "" for "". */
  function FirstChar(s: String): (r: String)
    ensures |r| <= 1
    ensures |r| == 1 <==> s != []
    ensures r == s[..|r|]
  {
    if s == [] then [] else [s[0]]
  }

  /** ASCII upper case; other characters are kept. */
  function ToUpper(c: char): char {
    if 'a' <= c <= 'z' then (c as int - 32) as char else c
  }

  /** ASCII lower case; other characters are kept. */
  function ToLower(c: char): char {
    if 'A' <= c <= 'Z' then (c as int + 32) as char else c
  }

  /** `s.toLowerCase()` over ASCII letters. */
  function Lowercase(s: String): (r: String)
    ensures |r| == |s|
    ensures forall i :: 0 <= i < |s| ==> r[i] == ToLower(s[i])
  {
    seq(|s|, i requires 0 <= i < |s| => ToLower(s[i]))
  }

  /** `s.toUpperCase()` over ASCII letters. */
  function Uppercase(s: String): (r: String)
    ensures |r| == |s|
    ensures forall i :: 0 <= i < |s| ==> r[i] == ToUpper(s[i])
  {
    seq(|s|, i requires 0 <= i < |s| => ToUpper(s[i]))
  }

  /** Index of the first `c` in `s`, if any. */
  function IndexOf(s: String, c: char): (r: nat)
    requires c in s
    ensures r < |s| && s[r] == c && c !in s[..r]
  {
    if s[0] == c then 0 else 1 + IndexOf(s[1..], c)
  }

  /** The pieces `split` separates with `sep`, joined back. */
  function Join(parts: seq<String>, sep: char): String
    requires |parts| >= 1
  {
    if |parts| == 1 then parts[0] else parts[0] + [sep] + Join(parts[1..], sep)
  }

  /**
   * `s.split(sep)` for a one-character separator: never empty, no piece
   * holds the separator, and joining the pieces back gives `s`.
   */
  function Split(s: String, sep: char): (parts: seq<String>)
    ensures |parts| >= 1
    ensures forall i :: 0 <= i < |parts| ==> sep !in parts[i]
    ensures Join(parts, sep) == s
    decreases |s|
  {
    if sep !in s then [s]
    else
      var k := IndexOf(s, sep);
      var rest := Split(s[k + 1..], sep);
      assert s == s[..k] + [sep] + s[k + 1..];
      [s[..k]] + rest
  }

  /** The first piece of `split` is the text before the first separator; the others split what follows it. */
  lemma SplitHead(s: String, sep: char)
    ensures sep !in s ==> Split(s, sep) == [s]
    ensures sep in s ==> Split(s, sep) == [s[..IndexOf(s, sep)]] + Split(s[IndexOf(s, sep) + 1..], sep)
  {
  }
}
