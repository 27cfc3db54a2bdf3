/**
 * The regular expressions of the NOAA parser, each written out as a
 * deterministic scanner over the text. Every pattern has the shape
 *   opener, a head, a lazy group `(.*?)`, closer
 * and the lazy group always ends the pattern, so a match at a given start is
 * unique: the head is fixed by the first `>` and the group ends at the first
 * closer (the first one on the same line when the pattern has no `s` flag).
 */
module Patterns {
  import opened Wrappers
  import opened Text

  type NonEmptyString = s: String | |s| > 0 witness "_"

  /** How the head of a pattern, between its opener and its lazy group, is matched. */
  datatype Head =
    | NoHead       // nothing: the group starts right after the opener
    | ToGt         // `[^>]*>`
    | ToGtStrong   // `[^>]*><strong>`
    | ThThenTd     // `[^>]*<\/th><td[^>]*>`

  /**
   * A pattern `opener head (.*?) closer`; without `dotAll` the lazy group
   * cannot cross a line terminator.
   */
  datatype Pattern = Pattern(opener: String, head: Head, closer: NonEmptyString, dotAll: bool)

  /** `/<table[^>]*>.*?<\/table>/s` */
  const Table := Pattern("<table", ToGt, "</table>", true)
  /** `/<tr.*?<\/tr>/gs` */
  const Row := Pattern("<tr", NoHead, "</tr>", true)
  /** `/<td[^>]*>(.*?)<\/td>/g` */
  const Cell := Pattern("<td", ToGt, "</td>", false)
  /** `/<div[^>]*>.*?<\/div>/gs` */
  const Section := Pattern("<div", ToGt, "</div>", true)
  /** `/<span[^>]*><strong>(.*?)<\/strong>/` */
  const DayLabel := Pattern("<span", ToGtStrong, "</strong>", false)
  /** `/<p>(.*?)<\/p>/g` */
  const Paragraph := Pattern("<p>", NoHead, "</p>", false)
  /** `/<[^>]*>/g`: `[^>]*` also crosses line terminators, and ends at the first `>`. */
  const Tag := Pattern("<", NoHead, ">", true)

  /** `new RegExp(`${name}[^>]*<\/th><td[^>]*>(.*?)<\/td>`)` */
  function Field(name: String): Pattern {
    Pattern(name, ThThenTd, "</td>", false)
  }

  /** A match: the text `s[start..end]`, its lazy group `s[groupStart..groupEnd]`. */
  datatype Match = Match(start: nat, end: nat, groupStart: nat, groupEnd: nat)

  predicate StartsWithAt(s: String, i: nat, lit: String) {
    i + |lit| <= |s| && s[i..i + |lit|] == lit
  }

  /** `g` is the first `>` at or after `from`: what `[^>]*>` consumes up to. */
  predicate FirstGt(s: String, from: nat, g: nat) {
    from <= g < |s| && s[g] == '>' && forall k :: from <= k < g ==> s[k] != '>'
  }

  /** First occurrence of the character `c` at or after `from`. */
  function FindChar(s: String, c: char, from: nat): (r: Option<nat>)
    ensures r.Some? ==> from <= r.value < |s| && s[r.value] == c
    ensures r.Some? ==> forall k :: from <= k < r.value ==> s[k] != c
    ensures r.None? ==> forall k :: from <= k < |s| ==> s[k] != c
    decreases |s| - from
  {
    if from >= |s| then None
    else if s[from] == c then Some(from)
    else FindChar(s, c, from + 1)
  }

  /** First occurrence of `lit` at or after `from`. */
  function Find(s: String, lit: String, from: nat): (r: Option<nat>)
    ensures r.Some? ==> from <= r.value && StartsWithAt(s, r.value, lit)
    ensures r.Some? ==> forall k :: from <= k < r.value ==> !StartsWithAt(s, k, lit)
    ensures r.None? ==> forall k :: from <= k ==> !StartsWithAt(s, k, lit)
    decreases |s| - from
  {
    if from + |lit| > |s| then None
    else if StartsWithAt(s, from, lit) then Some(from)
    else Find(s, lit, from + 1)
  }

  /**
   * What a lazy `.*?` followed by `lit` finds without the `s` flag: the first
   * occurrence of `lit` at or after `from`, provided no line terminator comes
   * before it.
   */
  function FindInLine(s: String, lit: String, from: nat): (r: Option<nat>)
    requires |lit| > 0
    ensures r.Some? ==> from <= r.value && StartsWithAt(s, r.value, lit)
    ensures r.Some? ==> forall k :: from <= k < r.value ==> !StartsWithAt(s, k, lit) && !IsLineTerminator(s[k])
    ensures r.None? ==> forall k :: from <= k && StartsWithAt(s, k, lit) ==>
                          exists j :: from <= j < k && IsLineTerminator(s[j])
    decreases |s| - from
  {
    if from + |lit| > |s| then None
    else if StartsWithAt(s, from, lit) then Some(from)
    else if IsLineTerminator(s[from]) then None
    else FindInLine(s, lit, from + 1)
  }

  /**
   * The head of a match at `start` — the text between the opener and the lazy
   * group — ends just before `groupStart`.
   */
  ghost predicate HeadMatches(p: Pattern, s: String, start: nat, groupStart: nat) {
    var h := start + |p.opener|;
    match p.head
    case NoHead => groupStart == h
    case ToGt => 1 <= groupStart && FirstGt(s, h, groupStart - 1)
    case ToGtStrong =>
      9 <= groupStart && FirstGt(s, h, groupStart - 9) && StartsWithAt(s, groupStart - 8, "<strong>")
    case ThThenTd => exists g: nat :: FieldHead(s, h, g, groupStart)
  }

  /**
   * The head `[^>]*<\/th><td[^>]*>` of a field pattern: its first `>` at `g`
   * closes a `</th>`, a `<td` follows, and the next `>` ends just before `groupStart`.
   */
  ghost predicate FieldHead(s: String, h: nat, g: nat, groupStart: nat) {
    FirstGt(s, h, g) && h + 4 <= g && StartsWithAt(s, g - 4, "</th>")
    && StartsWithAt(s, g + 1, "<td") && 1 <= groupStart && FirstGt(s, g + 4, groupStart - 1)
  }

  /**
   * The lazy group of `m` runs to the first closer (on the same line unless
   * `p.dotAll`), and the match ends with that closer.
   */
  ghost predicate LazyMatches(p: Pattern, s: String, m: Match) {
    m.groupStart <= m.groupEnd
    && m.end == m.groupEnd + |p.closer| && m.end <= |s|
    && StartsWithAt(s, m.groupEnd, p.closer)
    && (forall k :: m.groupStart <= k < m.groupEnd ==> !StartsWithAt(s, k, p.closer))
    && (!p.dotAll ==> forall k :: m.groupStart <= k < m.groupEnd ==> !IsLineTerminator(s[k]))
  }

  /** `m` is a match of `p` in `s`: the opener at `start`, the head, then the lazy group and closer. */
  ghost predicate IsMatchOf(p: Pattern, s: String, m: Match) {
    m.start + |p.opener| <= m.groupStart
    && StartsWithAt(s, m.start, p.opener)
    && HeadMatches(p, s, m.start, m.groupStart)
    && LazyMatches(p, s, m)
  }

  /** The lazy group and closer, from `from` on. */
  function LazyTail(p: Pattern, s: String, i: nat, from: nat): (r: Option<Match>)
    ensures r.Some? ==> r.value.start == i && r.value.groupStart == from
    ensures r.Some? ==> from <= r.value.groupEnd < r.value.end <= |s|
  {
    var e := if p.dotAll then Find(s, p.closer, from) else FindInLine(s, p.closer, from);
    match e
    case None => None
    case Some(e) => Some(Match(i, e + |p.closer|, from, e))
  }

  /** The start of the lazy group for a match of `p` at `i`, if the head matches there. */
  function GroupStartAt(p: Pattern, s: String, i: nat): (r: Option<nat>)
    ensures r.Some? ==> i + |p.opener| <= r.value
  {
    var h := i + |p.opener|;
    match p.head
    case NoHead => Some(h)
    case ToGt =>
      (match FindChar(s, '>', h)
       case None => None
       case Some(g) => Some(g + 1))
    case ToGtStrong =>
      (match FindChar(s, '>', h)
       case None => None
       case Some(g) => if StartsWithAt(s, g + 1, "<strong>") then Some(g + 9) else None)
    case ThThenTd =>
      (match FindChar(s, '>', h)
       case None => None
       case Some(g) =>
         if h + 4 <= g && StartsWithAt(s, g - 4, "</th>") && StartsWithAt(s, g + 1, "<td") then
           (match FindChar(s, '>', g + 4)
            case None => None
            case Some(g2) =>
              Some(g2 + 1))
         else None)
  }

  lemma FieldHeadMatches(p: Pattern, s: String, i: nat, g: nat, groupStart: nat)
    requires p.head.ThThenTd? && FieldHead(s, i + |p.opener|, g, groupStart)
    ensures HeadMatches(p, s, i, groupStart)
  {
  }

  /**
   * The match of `p` that starts exactly at `i`, if any. `MatchAtSound` and
   * `MatchAtComplete` show that it is the unique `m` with `IsMatchOf(p, s, m)`
   * and `m.start == i`.
   */
  function MatchAt(p: Pattern, s: String, i: nat): (r: Option<Match>)
    ensures r.Some? ==> r.value.start == i < r.value.end <= |s|
    ensures r.Some? ==> i + |p.opener| <= r.value.groupStart <= r.value.groupEnd < r.value.end
  {
    if !StartsWithAt(s, i, p.opener) then None
    else
      match GroupStartAt(p, s, i)
      case None => None
      case Some(gs) => LazyTail(p, s, i, gs)
  }

  /** What `LazyTail` returns is a lazy group up to the first closer. */
  lemma LazyTailSound(p: Pattern, s: String, i: nat, from: nat)
    requires LazyTail(p, s, i, from).Some?
    ensures LazyMatches(p, s, LazyTail(p, s, i, from).value)
  {
  }

  /** What `GroupStartAt` returns ends a head of `p`. */
  lemma GroupStartSound(p: Pattern, s: String, i: nat)
    requires GroupStartAt(p, s, i).Some?
    ensures HeadMatches(p, s, i, GroupStartAt(p, s, i).value)
  {
    var h := i + |p.opener|;
    var gs := GroupStartAt(p, s, i).value;
    match p.head
    case NoHead =>
    case ToGt =>
      var g := FindChar(s, '>', h).value;
      assert gs == g + 1 && FirstGt(s, h, g);
    case ToGtStrong =>
      var g := FindChar(s, '>', h).value;
      assert gs == g + 9 && FirstGt(s, h, g) && StartsWithAt(s, g + 1, "<strong>");
    case ThThenTd =>
      var g := FindChar(s, '>', h).value;
      assert h + 4 <= g && StartsWithAt(s, g - 4, "</th>") && StartsWithAt(s, g + 1, "<td");
      var g2 := FindChar(s, '>', g + 4).value;
      assert gs == g2 + 1;
      hide GroupStartAt, StartsWithAt;
      assert FirstGt(s, h, g) && FirstGt(s, g + 4, g2);
      FieldHeadMatches(p, s, i, g, g2 + 1);
  }

  /** Whatever `MatchAt` returns is a match of `p` at `i`. */
  lemma MatchAtSound(p: Pattern, s: String, i: nat)
    requires MatchAt(p, s, i).Some?
    ensures IsMatchOf(p, s, MatchAt(p, s, i).value)
  {
    GroupStartSound(p, s, i);
    LazyTailSound(p, s, i, GroupStartAt(p, s, i).value);
  }

  /** A lazy group ending at the first closer is the one `Find` or `FindInLine` yields. */
  lemma LazyTailComplete(p: Pattern, s: String, m: Match)
    requires LazyMatches(p, s, m)
    ensures LazyTail(p, s, m.start, m.groupStart) == Some(m)
  {
  }

  /** The head of every match is the one `GroupStartAt` finds. */
  lemma GroupStartComplete(p: Pattern, s: String, start: nat, groupStart: nat)
    requires HeadMatches(p, s, start, groupStart)
    ensures GroupStartAt(p, s, start) == Some(groupStart)
  {
    var h := start + |p.opener|;
    match p.head
    case NoHead =>
    case ToGt =>
      FindCharFirstGt(s, h, groupStart - 1);
    case ToGtStrong =>
      FindCharFirstGt(s, h, groupStart - 9);
    case ThThenTd =>
      var g: nat :| FieldHead(s, h, g, groupStart);
      FieldHeadComplete(p, s, start, g, groupStart);
  }

  lemma FieldHeadComplete(p: Pattern, s: String, start: nat, g: nat, groupStart: nat)
    requires p.head.ThThenTd? && FieldHead(s, start + |p.opener|, g, groupStart)
    ensures GroupStartAt(p, s, start) == Some(groupStart)
  {
    FindCharFirstGt(s, start + |p.opener|, g);
    FindCharFirstGt(s, g + 4, groupStart - 1);
  }

  /** `FindChar` stops at the first `>`. */
  lemma FindCharFirstGt(s: String, from: nat, g: nat)
    requires FirstGt(s, from, g)
    ensures FindChar(s, '>', from) == Some(g)
  {
  }

  /** Every match of `p` starting at `m.start` is the one `MatchAt` returns: the match is unique. */
  lemma MatchAtComplete(p: Pattern, s: String, m: Match)
    requires IsMatchOf(p, s, m)
    ensures MatchAt(p, s, m.start) == Some(m)
  {
    GroupStartComplete(p, s, m.start, m.groupStart);
    LazyTailComplete(p, s, m);
  }

  /** The one-character literal `[c]` starts at `k` exactly when `s[k] == c`. */
  lemma StartsWithChar(s: String, k: nat, c: char)
    ensures StartsWithAt(s, k, [c]) <==> k < |s| && s[k] == c
  {
    if k < |s| {
      assert s[k..k + 1] == [s[k]];
    }
  }

  /** No match of `p` starts in `[lo, hi)`; `NoMatchInAt` reads it position by position. */
  ghost predicate NoMatchIn(p: Pattern, s: String, lo: nat, hi: nat)
    decreases hi - lo
  {
    lo >= hi || (MatchAt(p, s, lo).None? && NoMatchIn(p, s, lo + 1, hi))
  }

  lemma {:induction false} NoMatchInAt(p: Pattern, s: String, lo: nat, hi: nat, k: nat)
    requires NoMatchIn(p, s, lo, hi) && lo <= k < hi
    ensures MatchAt(p, s, k).None?
    decreases hi - lo
  {
    if lo < k {
      NoMatchInAt(p, s, lo + 1, hi, k);
    }
  }

  /**
   * The leftmost match of `p` starting at or after `from`: what `s.match(re)`
   * without the `g` flag returns for `from == 0`, and what each step of a
   * global match finds from its last index.
   */
  function FirstMatch(p: Pattern, s: String, from: nat): (r: Option<Match>)
    ensures r.Some? ==> from <= r.value.start < r.value.end <= |s|
    ensures r.Some? ==> r.value.groupStart <= r.value.groupEnd < r.value.end
    decreases |s| - from
  {
    if from >= |s| then None
    else
      match MatchAt(p, s, from)
      case Some(m) => Some(m)
      case None => FirstMatch(p, s, from + 1)
  }

  /**
   * `FirstMatch` returns the match `MatchAt` finds at its start, and no match
   * starts between `from` and it; without a result, no match starts at or
   * after `from`.
   */
  lemma {:induction false} FirstMatchIsLeftmost(p: Pattern, s: String, from: nat)
    ensures var r := FirstMatch(p, s, from);
            && (r.Some? ==> MatchAt(p, s, r.value.start) == r && NoMatchIn(p, s, from, r.value.start))
            && (r.None? ==> NoMatchIn(p, s, from, |s|))
    decreases |s| - from
  {
    if from < |s| && MatchAt(p, s, from).None? {
      FirstMatchIsLeftmost(p, s, from + 1);
    }
  }

  /** Whatever `FirstMatch` returns is a match of `p`. */
  lemma FirstMatchSound(p: Pattern, s: String, from: nat)
    requires FirstMatch(p, s, from).Some?
    ensures IsMatchOf(p, s, FirstMatch(p, s, from).value)
  {
    FirstMatchIsLeftmost(p, s, from);
    MatchAtSound(p, s, FirstMatch(p, s, from).value.start);
  }

  /**
   * All matches of `p` from `from` on, as a global regular expression finds
   * them: the leftmost match, then the leftmost one from where it ended, and so
   * on. They are in order, do not overlap, and no match starts in a gap.
   */
  function AllMatches(p: Pattern, s: String, from: nat): (ms: seq<Match>)
    ensures forall k :: 0 <= k < |ms| ==> from <= ms[k].start < ms[k].end <= |s|
    ensures forall k :: 0 <= k < |ms| ==> ms[k].groupStart <= ms[k].groupEnd <= ms[k].end
    ensures forall k :: 0 < k < |ms| ==> ms[k - 1].end <= ms[k].start
    decreases |s| - from
  {
    match FirstMatch(p, s, from)
    case None => []
    case Some(m) => [m] + AllMatches(p, s, m.end)
  }

  /** `AllMatches` skips no match before the first one it returns. */
  lemma AllMatchesNoneBefore(p: Pattern, s: String, from: nat)
    ensures var ms := AllMatches(p, s, from);
            NoMatchIn(p, s, from, if ms == [] then |s| else ms[0].start)
  {
    FirstMatchIsLeftmost(p, s, from);
  }

  /** `AllMatches` skips no match between two consecutive ones it returns. */
  lemma {:induction false} AllMatchesNoneBetween(p: Pattern, s: String, from: nat, k: nat)
    requires 0 < k < |AllMatches(p, s, from)|
    ensures NoMatchIn(p, s, AllMatches(p, s, from)[k - 1].end, AllMatches(p, s, from)[k].start)
    decreases |s| - from
  {
    var m := FirstMatch(p, s, from).value;
    var rest := AllMatches(p, s, m.end);
    assert AllMatches(p, s, from) == [m] + rest;
    if k == 1 {
      AllMatchesNoneBefore(p, s, m.end);
    } else {
      AllMatchesNoneBetween(p, s, m.end, k - 1);
    }
  }

  /** `AllMatches` skips no match after the last one it returns. */
  lemma {:induction false} AllMatchesNoneAfter(p: Pattern, s: String, from: nat)
    ensures var ms := AllMatches(p, s, from);
            NoMatchIn(p, s, if ms == [] then from else ms[|ms| - 1].end, |s|)
    decreases |s| - from
  {
    var ms := AllMatches(p, s, from);
    if ms == [] {
      FirstMatchIsLeftmost(p, s, from);
    } else {
      var m := FirstMatch(p, s, from).value;
      var rest := AllMatches(p, s, m.end);
      assert ms == [m] + rest;
      AllMatchesNoneAfter(p, s, m.end);
      if rest != [] {
        assert ms[|ms| - 1] == rest[|rest| - 1];
      }
    }
  }

  /** Every element of `AllMatches` is the match `MatchAt` finds at its start. */
  lemma {:induction false} AllMatchesFound(p: Pattern, s: String, from: nat, k: nat)
    requires k < |AllMatches(p, s, from)|
    ensures MatchAt(p, s, AllMatches(p, s, from)[k].start) == Some(AllMatches(p, s, from)[k])
    decreases |s| - from
  {
    var m := FirstMatch(p, s, from).value;
    if k > 0 {
      AllMatchesFound(p, s, m.end, k - 1);
    } else {
      FirstMatchIsLeftmost(p, s, from);
    }
  }

  /** The text of a match. */
  function TextOf(s: String, m: Match): String
    requires m.start <= m.end <= |s|
  {
    s[m.start..m.end]
  }

  /** The text of a match's lazy group, the `(.*?)` capture. */
  function GroupOf(s: String, m: Match): String
    requires m.groupStart <= m.groupEnd <= |s|
  {
    s[m.groupStart..m.groupEnd]
  }

  /**
   * `s.match(re)` with the `g` flag: the texts of all matches, in order. The
   * source's `null` for "no match" is the empty sequence here; every caller
   * treats the two alike.
   */
  function MatchAll(p: Pattern, s: String): (r: seq<String>)
    ensures |r| == |AllMatches(p, s, 0)|
    ensures forall k :: 0 <= k < |r| ==>
              AllMatches(p, s, 0)[k].start < AllMatches(p, s, 0)[k].end <= |s|
              && r[k] == TextOf(s, AllMatches(p, s, 0)[k])
  {
    var ms := AllMatches(p, s, 0);
    seq(|ms|, k requires 0 <= k < |ms| => TextOf(s, ms[k]))
  }

  /** The text of every match opens with the pattern's opener and closes with its closer. */
  lemma MatchTextShape(p: Pattern, s: String, m: Match)
    requires IsMatchOf(p, s, m)
    ensures |p.opener| + |p.closer| <= |TextOf(s, m)|
    ensures TextOf(s, m)[..|p.opener|] == p.opener
    ensures TextOf(s, m)[|TextOf(s, m)| - |p.closer|..] == p.closer
  {
    var t := TextOf(s, m);
    assert t[..|p.opener|] == s[m.start..m.start + |p.opener|];
    assert t[|t| - |p.closer|..] == s[m.groupEnd..m.groupEnd + |p.closer|];
  }

  /** Every text a global match returns opens with the pattern's opener and closes with its closer. */
  lemma MatchAllShape(p: Pattern, s: String)
    ensures forall k :: 0 <= k < |MatchAll(p, s)| ==>
              var t := MatchAll(p, s)[k];
              |p.opener| + |p.closer| <= |t| && t[..|p.opener|] == p.opener && t[|t| - |p.closer|..] == p.closer
  {
    hide AllMatches, MatchAt, IsMatchOf, TextOf;
    forall k | 0 <= k < |MatchAll(p, s)|
      ensures var t := MatchAll(p, s)[k];
              |p.opener| + |p.closer| <= |t| && t[..|p.opener|] == p.opener && t[|t| - |p.closer|..] == p.closer
    {
      MatchShapeAt(p, s, k);
    }
  }

  /** The `k`-th text of a global match opens with the opener and closes with the closer. */
  lemma MatchShapeAt(p: Pattern, s: String, k: nat)
    requires k < |MatchAll(p, s)|
    ensures var t := MatchAll(p, s)[k];
            |p.opener| + |p.closer| <= |t| && t[..|p.opener|] == p.opener && t[|t| - |p.closer|..] == p.closer
  {
    var ms := AllMatches(p, s, 0);
    hide AllMatches, MatchAt, IsMatchOf, TextOf;
    AllMatchesFound(p, s, 0, k);
    MatchAtSound(p, s, ms[k].start);
    MatchTextShape(p, s, ms[k]);
  }

  /**
   * Without the `s` flag and without a head, a match cannot cross a line
   * terminator: its text is single-line when its opener and closer are.
   */
  lemma MatchTextSingleLine(p: Pattern, s: String, m: Match)
    requires !p.dotAll && p.head.NoHead? && SingleLine(p.opener) && SingleLine(p.closer)
    requires IsMatchOf(p, s, m)
    ensures SingleLine(TextOf(s, m))
  {
    var t := TextOf(s, m);
    forall i | 0 <= i < |t| ensures !IsLineTerminator(t[i]) {
      var q := m.start + i;
      assert t[i] == s[q];
      if q < m.groupStart {
        assert s[q] == s[m.start..m.start + |p.opener|][i];
      } else if q >= m.groupEnd {
        assert s[q] == s[m.groupEnd..m.groupEnd + |p.closer|][q - m.groupEnd];
      }
    }
  }

  /** The text of every match of such a pattern is single-line. */
  lemma MatchAllSingleLine(p: Pattern, s: String)
    requires !p.dotAll && p.head.NoHead? && SingleLine(p.opener) && SingleLine(p.closer)
    ensures forall k :: 0 <= k < |MatchAll(p, s)| ==> SingleLine(MatchAll(p, s)[k])
  {
    var ms := AllMatches(p, s, 0);
    forall k | 0 <= k < |ms| ensures SingleLine(MatchAll(p, s)[k]) {
      AllMatchesFound(p, s, 0, k);
      MatchAtSound(p, s, ms[k].start);
      MatchTextSingleLine(p, s, ms[k]);
    }
  }

  /**
   * The leftmost match is what `FirstMatch` returns: a match of `p` at or
   * after `from` with no match starting before it is the result.
   */
  lemma {:induction false} LeftmostIsFirstMatch(p: Pattern, s: String, from: nat, m: Match)
    requires IsMatchOf(p, s, m) && from <= m.start && NoMatchIn(p, s, from, m.start)
    ensures FirstMatch(p, s, from) == Some(m)
    decreases m.start - from
  {
    if from == m.start {
      MatchAtComplete(p, s, m);
    } else {
      LeftmostIsFirstMatch(p, s, from + 1, m);
    }
  }

  /** Without any match from `from` on, `FirstMatch` finds none. */
  lemma NoMatchIsNoFirstMatch(p: Pattern, s: String, from: nat)
    requires NoMatchIn(p, s, from, |s|)
    ensures FirstMatch(p, s, from).None?
  {
    FirstMatchIsLeftmost(p, s, from);
    var r := FirstMatch(p, s, from);
    if r.Some? {
      NoMatchInAt(p, s, from, |s|, r.value.start);
    }
  }

  /** Where the opener does not start, no match starts. */
  lemma {:induction false} NoOpenerNoMatch(p: Pattern, s: String, lo: nat, hi: nat)
    requires forall k :: lo <= k < hi ==> !StartsWithAt(s, k, p.opener)
    ensures NoMatchIn(p, s, lo, hi)
    decreases hi - lo
  {
    if lo < hi {
      NoOpenerNoMatch(p, s, lo + 1, hi);
    }
  }

  /** Matching from the start or from the end of a stretch where no match starts finds the same. */
  lemma {:induction false} NoMatchInSkips(p: Pattern, s: String, lo: nat, hi: nat)
    requires lo <= hi <= |s| && NoMatchIn(p, s, lo, hi)
    ensures FirstMatch(p, s, lo) == FirstMatch(p, s, hi)
    ensures AllMatches(p, s, lo) == AllMatches(p, s, hi)
    decreases hi - lo
  {
    if lo < hi {
      NoMatchInSkips(p, s, lo + 1, hi);
    }
  }

  /** What precedes the lazy group: the opener, followed by `>` for the head `[^>]*>`. */
  function Lead(p: Pattern): String {
    if p.head.ToGt? then p.opener + ">" else p.opener
  }

  /** The text `p` matches around the group `v`, for a pattern without head or with `[^>]*>`. */
  function Wrap(p: Pattern, v: String): String {
    Lead(p) + v + p.closer
  }

  /** The groups `vs`, each wrapped, one after the other. */
  function WrapAll(p: Pattern, vs: seq<String>): String {
    if vs == [] then [] else Wrap(p, vs[0]) + WrapAll(p, vs[1..])
  }

  /**
   * A group that the lazy `(.*?)` reads whole when the closer follows it: no
   * closer starts within it, and without `s` it holds no line terminator.
   */
  predicate Wrappable(p: Pattern, v: String) {
    (forall k :: 0 <= k < |v| ==> !StartsWithAt(v + p.closer, k, p.closer))
    && (!p.dotAll ==> SingleLine(v))
  }

  /** A group without the closer's first character is read whole. */
  lemma WrappableWithoutCloserChar(p: Pattern, v: String)
    requires p.closer[0] !in v && (!p.dotAll ==> SingleLine(v))
    ensures Wrappable(p, v)
  {
    var w := v + p.closer;
    forall k | 0 <= k < |v| ensures !StartsWithAt(w, k, p.closer) {
      assert w[k] == v[k];
      if k + |p.closer| <= |w| {
        assert w[k..k + |p.closer|][0] == w[k];
      }
    }
  }

  /** A wrapped group at `i` is the leftmost match from `i`, with `v` as its group. */
  lemma WrapMatchAt(p: Pattern, s: String, i: nat, v: String)
    requires p.head.NoHead? || p.head.ToGt?
    requires Wrappable(p, v)
    requires i + |Wrap(p, v)| <= |s| && s[i..i + |Wrap(p, v)|] == Wrap(p, v)
    ensures FirstMatch(p, s, i) == Some(Match(i, i + |Wrap(p, v)|, i + |Lead(p)|, i + |Lead(p)| + |v|))
  {
    var m := Match(i, i + |Wrap(p, v)|, i + |Lead(p)|, i + |Lead(p)| + |v|);
    WrapIsMatch(p, s, i, v);
    LeftmostIsFirstMatch(p, s, i, m);
  }

  lemma WrapIsMatch(p: Pattern, s: String, i: nat, v: String)
    requires p.head.NoHead? || p.head.ToGt?
    requires Wrappable(p, v)
    requires i + |Wrap(p, v)| <= |s| && s[i..i + |Wrap(p, v)|] == Wrap(p, v)
    ensures IsMatchOf(p, s, Match(i, i + |Wrap(p, v)|, i + |Lead(p)|, i + |Lead(p)| + |v|))
  {
    WrapSlices(p, s, i, v);
    var gs := i + |Lead(p)|;
    hide Wrap;
    LeadIsHead(p, s, i);
    GroupBeforeCloser(s, gs, v, p.closer);
    if !p.dotAll {
      GroupOnOneLine(s, gs, v);
    }
  }

  /** The opener at `i`, and for `[^>]*>` a `>` right after it, match the head up to the group. */
  lemma LeadIsHead(p: Pattern, s: String, i: nat)
    requires p.head.NoHead? || p.head.ToGt?
    requires |Lead(p)| == if p.head.ToGt? then |p.opener| + 1 else |p.opener|
    requires i + |Lead(p)| <= |s|
    requires p.head.ToGt? ==> s[i + |p.opener|] == '>'
    ensures HeadMatches(p, s, i, i + |Lead(p)|)
  {
    if p.head.ToGt? {
      assert FirstGt(s, i + |p.opener|, i + |p.opener|);
    }
  }

  /** A single-line group holds no line terminator where it lies. */
  lemma GroupOnOneLine(s: String, gs: nat, v: String)
    requires SingleLine(v) && gs + |v| <= |s| && s[gs..gs + |v|] == v
    ensures forall k :: gs <= k < gs + |v| ==> !IsLineTerminator(s[k])
  {
    forall k | gs <= k < gs + |v| ensures !IsLineTerminator(s[k]) {
      assert s[k] == s[gs..gs + |v|][k - gs] == v[k - gs];
    }
  }

  /** No closer starts within a group that the closer follows, when none starts within `v + c` before `c`. */
  lemma GroupBeforeCloser(s: String, gs: nat, v: String, c: String)
    requires gs + |v| + |c| <= |s| && s[gs..gs + |v|] == v && StartsWithAt(s, gs + |v|, c)
    requires forall k :: 0 <= k < |v| ==> !StartsWithAt(v + c, k, c)
    ensures forall k :: gs <= k < gs + |v| ==> !StartsWithAt(s, k, c)
  {
    var ge := gs + |v|;
    assert s[gs..ge + |c|] == s[gs..ge] + s[ge..ge + |c|];
    forall k | gs <= k < ge ensures !StartsWithAt(s, k, c) {
      StartsWithWithin(s, gs, v + c, k - gs, c);
    }
  }

  /** `lit` starts at `gs + j` in `s` iff it starts at `j` in `w`, when `w` lies at `gs` and covers `lit` there. */
  lemma StartsWithWithin(s: String, gs: nat, w: String, j: nat, lit: String)
    requires gs + |w| <= |s| && s[gs..gs + |w|] == w && j + |lit| <= |w|
    ensures StartsWithAt(s, gs + j, lit) <==> StartsWithAt(w, j, lit)
  {
    SliceOfSlice(s, gs, gs + |w|, j, j + |lit|);
  }

  /** Where the opener, the group and the closer of a wrapped group at `i` lie. */
  lemma WrapSlices(p: Pattern, s: String, i: nat, v: String)
    requires p.head.NoHead? || p.head.ToGt?
    requires i + |Wrap(p, v)| <= |s| && s[i..i + |Wrap(p, v)|] == Wrap(p, v)
    ensures |Wrap(p, v)| == |Lead(p)| + |v| + |p.closer|
    ensures |Lead(p)| == if p.head.ToGt? then |p.opener| + 1 else |p.opener|
    ensures StartsWithAt(s, i, p.opener)
    ensures p.head.ToGt? ==> s[i + |p.opener|] == '>'
    ensures s[i + |Lead(p)|..i + |Lead(p)| + |v|] == v
    ensures StartsWithAt(s, i + |Lead(p)| + |v|, p.closer)
  {
    var lead, o := Lead(p), p.opener;
    assert Wrap(p, v) == lead + v + p.closer;
    assert |o| <= |lead| && lead[..|o|] == o;
    assert p.head.ToGt? ==> lead[|o|] == '>';
    hide Wrap, Lead;
    ThreeParts(s, i, lead, v, p.closer);
    SliceOfSlice(s, i, i + |lead|, 0, |o|);
    if p.head.ToGt? {
      assert s[i + |o|] == s[i..i + |lead|][|o|];
    }
  }

  /**
   * A global match from `from` over wrapped groups that end at `to`, with no
   * match starting after them, finds one match per group, and its text is
   * that group wrapped.
   */
  lemma {:induction false} AllMatchesOfWrapped(p: Pattern, s: String, from: nat, to: nat, vs: seq<String>)
    requires p.head.NoHead? || p.head.ToGt?
    requires forall k :: 0 <= k < |vs| ==> Wrappable(p, vs[k])
    requires from <= to <= |s| && s[from..to] == WrapAll(p, vs) && NoMatchIn(p, s, to, |s|)
    ensures |AllMatches(p, s, from)| == |vs|
    ensures forall k :: 0 <= k < |vs| ==> TextOf(s, AllMatches(p, s, from)[k]) == Wrap(p, vs[k])
    decreases |vs|
  {
    if vs == [] {
      assert from == to;
      NoMatchIsNoFirstMatch(p, s, to);
    } else {
      var w := Wrap(p, vs[0]);
      var next := from + |w|;
      WrapAllSplits(p, s, from, to, vs);
      WrapMatchAt(p, s, from, vs[0]);
      var m := FirstMatch(p, s, from).value;
      assert m.start == from && m.end == next;
      AllMatchesOfWrapped(p, s, next, to, vs[1..]);
      var rest := AllMatches(p, s, next);
      assert AllMatches(p, s, from) == [m] + rest;
      assert TextOf(s, m) == w;
      hide AllMatches, FirstMatch, MatchAt, WrapAll, Wrappable;
      FirstThenRest(p, s, AllMatches(p, s, from), vs);
    }
  }

  /** Texts of matches that read the first group and then each of the rest read every group. */
  lemma FirstThenRest(p: Pattern, s: String, ms: seq<Match>, vs: seq<String>)
    requires vs != [] && |ms| == 1 + |vs[1..]|
    requires forall k :: 0 <= k < |ms| ==> ms[k].start <= ms[k].end <= |s|
    requires TextOf(s, ms[0]) == Wrap(p, vs[0])
    requires forall k :: 0 <= k < |vs[1..]| ==> TextOf(s, ms[1..][k]) == Wrap(p, vs[1..][k])
    ensures |ms| == |vs|
    ensures forall k :: 0 <= k < |vs| ==> TextOf(s, ms[k]) == Wrap(p, vs[k])
  {
    forall k | 0 < k < |vs| ensures TextOf(s, ms[k]) == Wrap(p, vs[k]) {
      assert ms[k] == ms[1..][k - 1] && vs[k] == vs[1..][k - 1];
    }
  }

  /** Where wrapped groups lie, the first lies at the start and the rest follow it. */
  lemma WrapAllSplits(p: Pattern, s: String, from: nat, to: nat, vs: seq<String>)
    requires vs != [] && from <= to <= |s| && s[from..to] == WrapAll(p, vs)
    ensures from + |Wrap(p, vs[0])| <= to
    ensures s[from..from + |Wrap(p, vs[0])|] == Wrap(p, vs[0])
    ensures s[from + |Wrap(p, vs[0])|..to] == WrapAll(p, vs[1..])
  {
    var w := Wrap(p, vs[0]);
    assert WrapAll(p, vs) == w + WrapAll(p, vs[1..]);
    assert s[from..from + |w|] == s[from..to][..|w|];
    assert s[from + |w|..to] == s[from..to][|w|..];
  }

  /** `s.match(re)` with `g` over wrapped groups gives each group wrapped, in order. */
  lemma MatchAllOfWrapped(p: Pattern, vs: seq<String>)
    requires p.head.NoHead? || p.head.ToGt?
    requires forall k :: 0 <= k < |vs| ==> Wrappable(p, vs[k])
    ensures |MatchAll(p, WrapAll(p, vs))| == |vs|
    ensures forall k :: 0 <= k < |vs| ==> MatchAll(p, WrapAll(p, vs))[k] == Wrap(p, vs[k])
  {
    var s := WrapAll(p, vs);
    assert s[0..|s|] == s;
    AllMatchesOfWrapped(p, s, 0, |s|, vs);
  }

  /**
   * `name</th><td>v</td>` after a prefix `pre` is a match of the field pattern
   * of `name`, with `v` as its group.
   */
  lemma FieldMatchOfCell(pre: String, name: String, v: String)
    requires '<' !in v && SingleLine(v)
    ensures var s := pre + name + "</th><td>" + v + "</td>";
            var h := |pre| + |name|;
            IsMatchOf(Field(name), s, Match(|pre|, |s|, h + 9, h + 9 + |v|))
  {
    var s := pre + name + "</th><td>" + v + "</td>";
    var h := |pre| + |name|;
    FieldCellLayout(pre, name, v);
    hide IsMatchOf, Field, StartsWithAt, SingleLine;
    FieldMatchAt(s, |pre|, name, v);
  }

  /** The field pattern of `name` matches where `name`, `</th><td>`, `v` and `</td>` lie one after the other. */
  lemma FieldMatchAt(s: String, i: nat, name: String, v: String)
    requires '<' !in v && SingleLine(v)
    requires var h := i + |name|;
             && h + 14 + |v| <= |s| && s[i..h] == name
             && s[h..h + 5] == "</th>" && s[h + 5..h + 8] == "<td"
             && s[h] == '<' && s[h + 1] == '/' && s[h + 2] == 't' && s[h + 3] == 'h' && s[h + 4] == '>'
             && s[h + 8] == '>'
             && s[h + 9..h + 9 + |v|] == v
             && StartsWithAt(s, h + 9 + |v|, "</td>")
    ensures IsMatchOf(Field(name), s, Match(i, i + |name| + 14 + |v|, i + |name| + 9, i + |name| + 9 + |v|))
  {
    var h := i + |name|;
    var p := Field(name);
    var m := Match(i, h + 14 + |v|, h + 9, h + 9 + |v|);
    CellGroupLazy(p, s, m, v);
    FieldHeadAt(s, i, name);
    assert StartsWithAt(s, i, p.opener);
    hide LazyMatches, HeadMatches;
  }

  /** The head of the field pattern of `name` runs over `</th><td>` right after `name` at `i`. */
  lemma FieldHeadAt(s: String, i: nat, name: String)
    requires var h := i + |name|;
             && h + 9 <= |s| && s[h + 5..h + 8] == "<td"
             && s[h] == '<' && s[h + 1] == '/' && s[h + 2] == 't' && s[h + 3] == 'h' && s[h + 4] == '>'
             && s[h + 8] == '>'
    ensures HeadMatches(Field(name), s, i, i + |name| + 9)
  {
    var h := i + |name|;
    assert s[h..h + 5] == "</th>";
    assert FirstGt(s, h, h + 4);
    assert FirstGt(s, h + 8, h + 8);
    FieldHeadMatches(Field(name), s, i, h + 4, h + 9);
  }

  /** A group without `<` and on one line, followed by `</td>`, is the lazy group of a cell. */
  lemma CellGroupLazy(p: Pattern, s: String, m: Match, v: String)
    requires p.closer == "</td>" && !p.dotAll && '<' !in v && SingleLine(v)
    requires m.groupEnd == m.groupStart + |v| && m.end == m.groupEnd + 5 && m.end <= |s|
    requires s[m.groupStart..m.groupEnd] == v && StartsWithAt(s, m.groupEnd, "</td>")
    ensures LazyMatches(p, s, m)
  {
    GroupWithoutLt(s, m.groupStart, v, "</td>");
  }

  /**
   * A group `v` without `<` at `gs`: no closer that opens with `<` starts in
   * it, and it is on one line when `v` is.
   */
  lemma GroupWithoutLt(s: String, gs: nat, v: String, c: String)
    requires gs + |v| <= |s| && s[gs..gs + |v|] == v && '<' !in v && c != [] && c[0] == '<'
    ensures forall k :: gs <= k < gs + |v| ==> !StartsWithAt(s, k, c)
    ensures SingleLine(v) ==> forall k :: gs <= k < gs + |v| ==> !IsLineTerminator(s[k])
  {
    forall k | gs <= k < gs + |v| ensures s[k] == v[k - gs] && !StartsWithAt(s, k, c) {
      assert s[k] == s[gs..gs + |v|][k - gs];
      if k + |c| <= |s| {
        assert s[k..k + |c|][0] == s[k];
      }
    }
  }

  /** Where the prefix, the name, the `</th><td>` head, the value and `</td>` lie in a field cell. */
  lemma FieldCellLayout(pre: String, name: String, v: String)
    ensures var s := pre + name + "</th><td>" + v + "</td>";
            var h := |pre| + |name|;
            && |s| == h + 14 + |v|
            && s[|pre|..h] == name
            && s[h..h + 5] == "</th>" && s[h + 5..h + 8] == "<td"
            && s[h] == '<' && s[h + 1] == '/' && s[h + 2] == 't' && s[h + 3] == 'h' && s[h + 4] == '>'
            && s[h + 8] == '>'
            && s[h + 9..h + 9 + |v|] == v
            && s[h + 9 + |v|..] == "</td>"
            && StartsWithAt(s, h + 9 + |v|, "</td>")
  {
    var t, c := "</th><td>", "</td>";
    var s := pre + name + t + v + c;
    var h := |pre| + |name|;
    assert s == pre + name + "</th><td>" + v + "</td>";
    assert s[h..h + 9] == t;
    assert s[h..h + 5] == t[..5];
    assert s[h + 5..h + 8] == t[5..8];
    assert s[h + 8] == t[8];
  }

  /**
   * `<span><strong>d</strong>` at the start of the text, with `d` single-line
   * and without `<`, is the leftmost match of the day-label pattern, with `d`
   * as its group.
   */
  lemma DayLabelOfSpan(s: String, d: String)
    requires '<' !in d && SingleLine(d)
    requires 23 + |d| <= |s| && s[..23 + |d|] == "<span><strong>" + d + "</strong>"
    ensures FirstMatch(DayLabel, s, 0) == Some(Match(0, 23 + |d|, 14, 14 + |d|))
    ensures s[14..14 + |d|] == d
  {
    var m := Match(0, 23 + |d|, 14, 14 + |d|);
    SpanLabelLayout(s, d);
    GroupWithoutLt(s, 14, d, "</strong>");
    assert FirstGt(s, 5, 5);
    assert HeadMatches(DayLabel, s, 0, 14);
    assert IsMatchOf(DayLabel, s, m);
    LeftmostIsFirstMatch(DayLabel, s, 0, m);
  }

  /** Where `<span`, its `>`, `<strong>`, the label and `</strong>` lie. */
  lemma SpanLabelLayout(s: String, d: String)
    requires 23 + |d| <= |s| && s[..23 + |d|] == "<span><strong>" + d + "</strong>"
    ensures s[0..5] == "<span" && s[5] == '>' && s[6..14] == "<strong>"
    ensures s[14..14 + |d|] == d && s[14 + |d|..23 + |d|] == "</strong>"
  {
    var a, c := "<span><strong>", "</strong>";
    var n := 23 + |d|;
    ThreeParts(s, 0, a, d, c);
    SliceOfSlice(s, 0, 14, 0, 5);
    SliceOfSlice(s, 0, 14, 6, 14);
    assert s[5] == s[0..14][5] == a[5];
    assert a[..5] == "<span" && a[6..] == "<strong>";
  }

  /** No `<` is followed, anywhere later, by a `>`: nothing a tag pattern could match. */
  predicate Tagless(s: String) {
    forall i, j :: 0 <= i < j < |s| && s[i] == '<' ==> s[j] != '>'
  }

  /** A `<` at `i` where no tag match starts has no `>` anywhere after it. */
  lemma NoTagMeansNoGt(s: String, i: nat)
    requires i < |s| && s[i] == '<' && MatchAt(Tag, s, i).None?
    ensures forall j :: i < j < |s| ==> s[j] != '>'
  {
    var g := FindChar(s, '>', i + 1);
    if g.Some? {
      var m := Match(i, g.value + 1, i + 1, g.value);
      StartsWithChar(s, i, '<');
      StartsWithChar(s, g.value, '>');
      forall k | i + 1 <= k < g.value ensures !StartsWithAt(s, k, ">") {
        StartsWithChar(s, k, '>');
      }
      assert IsMatchOf(Tag, s, m);
      MatchAtComplete(Tag, s, m);
    }
  }

  /**
   * The global replacement of `/<[^>]*>/g` by "" from position `from` on: a
   * tag match starting at the current position is cut out and the scan goes on
   * after it; otherwise the character is kept. What is left is tagless and
   * made of characters of `s[from..]`.
   */
  function StripFrom(s: String, from: nat): (r: String)
    requires from <= |s|
    ensures Tagless(r)
    ensures multiset(r) <= multiset(s[from..])
    decreases |s| - from
  {
    if from == |s| then []
    else
      match MatchAt(Tag, s, from)
      case Some(m) =>
        SuffixWithin(s, from, m.end);
        StripFrom(s, m.end)
      case None =>
        var rest := StripFrom(s, from + 1);
        if s[from] == '<' then
          NoTagMeansNoGt(s, from);
          KeepCharTagless(s, from, rest);
          [s[from]] + rest
        else
          KeepCharTagless(s, from, rest);
          [s[from]] + rest
  }

  /** A later suffix holds no more characters than an earlier one. */
  lemma SuffixWithin(s: String, a: nat, b: nat)
    requires a <= b <= |s|
    ensures multiset(s[b..]) <= multiset(s[a..])
  {
    assert s[a..] == s[a..b] + s[b..];
  }

  /**
   * Keeping the character at `from` in front of a tagless text drawn from
   * after it stays tagless, when a kept `<` has no `>` after it.
   */
  lemma KeepCharTagless(s: String, from: nat, rest: String)
    requires from < |s| && Tagless(rest) && multiset(rest) <= multiset(s[from + 1..])
    requires s[from] == '<' ==> forall j :: from < j < |s| ==> s[j] != '>'
    ensures Tagless([s[from]] + rest)
    ensures multiset([s[from]] + rest) <= multiset(s[from..])
  {
    assert s[from..] == [s[from]] + s[from + 1..];
    if s[from] == '<' {
      forall j | 0 <= j < |rest| ensures rest[j] != '>' {
        assert rest[j] in multiset(s[from + 1..]);
        var k :| 0 <= k < |s[from + 1..]| && s[from + 1..][k] == rest[j];
        assert s[from + 1 + k] == rest[j];
      }
    }
  }

  /** `s.replace(/<[^>]*>/g, "")`. */
  function StripTags(s: String): (r: String)
    ensures Tagless(r)
    ensures multiset(r) <= multiset(s)
  {
    assert s[0..] == s;
    StripFrom(s, 0)
  }

  /** Spans within `[from, n)`, in order and not overlapping. */
  predicate OrderedSpans(ms: seq<Match>, from: nat, n: nat) {
    && (forall k :: 0 <= k < |ms| ==> ms[k].start <= ms[k].end <= n)
    && (ms != [] ==> from <= ms[0].start)
    && (forall k :: 0 < k < |ms| ==> ms[k - 1].end <= ms[k].start)
  }

  /**
   * The text of `s` from `from` on with the spans `ms` cut out: what lies
   * before the first span, between consecutive spans, and after the last.
   */
  function CutSpans(s: String, ms: seq<Match>, from: nat): String
    requires from <= |s| && OrderedSpans(ms, from, |s|)
    decreases |ms|
  {
    if ms == [] then s[from..]
    else
      assert OrderedSpans(ms[1..], ms[0].end, |s|);
      s[from..ms[0].start] + CutSpans(s, ms[1..], ms[0].end)
  }

  /** Keeping one more character in front of the first span. */
  lemma CutSpansCons(s: String, ms: seq<Match>, from: nat)
    requires from < |s| && OrderedSpans(ms, from + 1, |s|)
    ensures OrderedSpans(ms, from, |s|)
    ensures CutSpans(s, ms, from) == [s[from]] + CutSpans(s, ms, from + 1)
  {
    if ms != [] {
      var e := ms[0].start;
      OrderedSpansTail(ms, from + 1, |s|);
      var rest := CutSpans(s, ms[1..], ms[0].end);
      hide OrderedSpans;
      assert CutSpans(s, ms, from) == s[from..e] + rest;
      assert CutSpans(s, ms, from + 1) == s[from + 1..e] + rest;
      assert s[from..e] == [s[from]] + s[from + 1..e];
    } else {
      assert s[from..] == [s[from]] + s[from + 1..];
    }
  }

  lemma OrderedSpansTail(ms: seq<Match>, from: nat, n: nat)
    requires ms != [] && OrderedSpans(ms, from, n)
    ensures OrderedSpans(ms[1..], ms[0].end, n)
  {
  }

  /** Cutting out a span that starts right at `from`. */
  lemma CutSpansSkip(s: String, m: Match, rest: seq<Match>, from: nat)
    requires from == m.start <= m.end <= |s| && OrderedSpans(rest, m.end, |s|)
    ensures OrderedSpans([m] + rest, from, |s|)
    ensures CutSpans(s, [m] + rest, from) == CutSpans(s, rest, m.end)
  {
    var ms := [m] + rest;
    assert ms[1..] == rest;
  }

  /** A tag match at `from` is cut out, and both sides go on after it. */
  lemma StripStepTag(s: String, from: nat)
    requires from < |s| && MatchAt(Tag, s, from).Some?
    ensures var m := MatchAt(Tag, s, from).value;
            && from == m.start <= m.end <= |s|
            && StripFrom(s, from) == StripFrom(s, m.end)
            && AllMatches(Tag, s, from) == [m] + AllMatches(Tag, s, m.end)
  {
  }

  /** Without a tag match at `from`, the character is kept and both sides go on after it. */
  lemma StripStepChar(s: String, from: nat)
    requires from < |s| && MatchAt(Tag, s, from).None?
    ensures StripFrom(s, from) == [s[from]] + StripFrom(s, from + 1)
    ensures AllMatches(Tag, s, from) == AllMatches(Tag, s, from + 1)
  {
    assert FirstMatch(Tag, s, from) == FirstMatch(Tag, s, from + 1);
  }

  /** The scan from `from` cuts out exactly the global tag matches from `from` on. */
  lemma {:induction false} StripFromCutsMatches(s: String, from: nat)
    requires from <= |s|
    ensures OrderedSpans(AllMatches(Tag, s, from), from, |s|)
    ensures StripFrom(s, from) == CutSpans(s, AllMatches(Tag, s, from), from)
    decreases |s| - from
  {
    if from == |s| {
      assert AllMatches(Tag, s, from) == [];
    } else if MatchAt(Tag, s, from).Some? {
      var m := MatchAt(Tag, s, from).value;
      StripStepTag(s, from);
      StripFromCutsMatches(s, m.end);
      hide StripFrom, AllMatches, MatchAt, FirstMatch, CutSpans, OrderedSpans;
      CutSpansSkip(s, m, AllMatches(Tag, s, m.end), from);
    } else {
      StripStepChar(s, from);
      StripFromCutsMatches(s, from + 1);
      hide StripFrom, AllMatches, MatchAt, FirstMatch, CutSpans, OrderedSpans;
      CutSpansCons(s, AllMatches(Tag, s, from + 1), from);
    }
  }

  /**
   * Stripping tags is cutting out every match of the global tag pattern and
   * keeping every other character, in order.
   */
  lemma StripTagsCutsMatches(s: String)
    ensures StripTags(s) == CutSpans(s, AllMatches(Tag, s, 0), 0)
  {
    StripFromCutsMatches(s, 0);
  }

  /** A `<` at `i` whose first later `>` is at `j` starts the tag match `s[i..j + 1]`. */
  lemma TagAt(s: String, i: nat, j: nat)
    requires i < j < |s| && s[i] == '<' && s[j] == '>'
    requires forall k :: i < k < j ==> s[k] != '>'
    ensures MatchAt(Tag, s, i) == Some(Match(i, j + 1, i + 1, j))
  {
    StartsWithChar(s, i, '<');
    StartsWithChar(s, j, '>');
    forall k | i + 1 <= k < j ensures !StartsWithAt(s, k, ">") {
      StartsWithChar(s, k, '>');
    }
    MatchAtComplete(Tag, s, Match(i, j + 1, i + 1, j));
  }

  /** At the end of the text, the scan yields nothing. */
  lemma StripFromEnd(s: String)
    ensures StripFrom(s, |s|) == []
  {
  }

  /** No tag match starts at a character other than `<`. */
  lemma NoTagWithoutLt(s: String, i: nat)
    requires i < |s| && s[i] != '<'
    ensures MatchAt(Tag, s, i).None?
  {
    StartsWithChar(s, i, '<');
  }

  /** The scan keeps a stretch without `<` as it is. */
  lemma {:induction false} StripFromKeeps(s: String, from: nat, to: nat)
    requires from <= to <= |s|
    requires forall k :: from <= k < to ==> s[k] != '<'
    ensures StripFrom(s, from) == s[from..to] + StripFrom(s, to)
    decreases |s| - from
  {
    hide *;
    if from < to {
      NoTagWithoutLt(s, from);
      StripStepChar(s, from);
      StripFromKeeps(s, from + 1, to);
      assert s[from..to] == [s[from]] + s[from + 1..to];
      ConcatAssoc([s[from]], s[from + 1..to], StripFrom(s, to));
    }
  }

  /** Text between two tags, itself without `<`, is what stripping leaves. */
  lemma StripTagsOfEnclosed(a: String, v: String, b: String)
    requires '>' !in a && '>' !in b && '<' !in v
    ensures StripTags("<" + a + ">" + v + "<" + b + ">") == v
  {
    var x, y := "<" + a + ">", "<" + b + ">";
    var s := x + v + y;
    assert s == "<" + a + ">" + v + "<" + b + ">";
    var i := |x|;
    var j := i + |v|;
    assert s[0] == '<' && s[i - 1] == '>' && s[j] == '<' && s[|s| - 1] == '>';
    forall k | 0 < k < i - 1 ensures s[k] != '>' {
      assert s[k] == x[k] == a[k - 1];
    }
    forall k | i <= k < j ensures s[k] != '<' {
      assert s[k] == v[k - i];
    }
    forall k | j < k < |s| - 1 ensures s[k] != '>' {
      assert s[k] == y[k - j] == b[k - j - 1];
    }
    assert s[i..j] == v;
    StripFromBetweenTags(s, i, j);
    assert s[0..] == s;
  }

  /** A tag, a stretch without `<`, and a closing tag: the scan keeps only the stretch. */
  lemma StripFromBetweenTags(s: String, i: nat, j: nat)
    requires 0 < i <= j < |s| - 1
    requires s[0] == '<' && s[i - 1] == '>' && forall k :: 0 < k < i - 1 ==> s[k] != '>'
    requires forall k :: i <= k < j ==> s[k] != '<'
    requires s[j] == '<' && s[|s| - 1] == '>' && forall k :: j < k < |s| - 1 ==> s[k] != '>'
    ensures StripFrom(s, 0) == s[i..j]
  {
    hide *;
    TagAt(s, 0, i - 1);
    StripStepTag(s, 0);
    StripFromKeeps(s, i, j);
    TagAt(s, j, |s| - 1);
    StripStepTag(s, j);
    StripFromEnd(s);
  }

  /** A slice of tagless text is tagless. */
  lemma TaglessSlice(s: String, a: nat, b: nat)
    requires Tagless(s) && a <= b <= |s|
    ensures Tagless(s[a..b])
  {
    var t := s[a..b];
    forall i, j | 0 <= i < j < |t| && t[i] == '<' ensures t[j] != '>' {
      assert t[i] == s[a + i] && t[j] == s[a + j];
    }
  }

  /** Trimming only removes characters from the ends, so it keeps text tagless. */
  lemma TrimKeepsTagless(s: String)
    requires Tagless(s)
    ensures Tagless(Trim(s))
  {
    var t := TrimStart(s);
    TaglessSlice(s, |s| - |t|, |s|);
    TaglessSlice(t, 0, |TrimEnd(t)|);
  }

  /** Tagless text has no tag match, so the scan keeps all of it. */
  lemma {:induction false} StripFromOfTagless(s: String, from: nat)
    requires Tagless(s) && from <= |s|
    ensures StripFrom(s, from) == s[from..]
    decreases |s| - from
  {
    if from < |s| {
      if MatchAt(Tag, s, from).Some? {
        var m := MatchAt(Tag, s, from).value;
        MatchAtSound(Tag, s, from);
        StartsWithChar(s, from, '<');
        StartsWithChar(s, m.groupEnd, '>');
        assert false;
      }
      StripFromOfTagless(s, from + 1);
      assert s[from..] == [s[from]] + s[from + 1..];
    }
  }

  /** Tagless text is left alone. */
  lemma StripTagsOfTagless(s: String)
    requires Tagless(s)
    ensures StripTags(s) == s
  {
    StripFromOfTagless(s, 0);
  }

  /** Stripping tags twice is stripping them once. */
  lemma StripTagsIdempotent(s: String)
    ensures StripTags(StripTags(s)) == StripTags(s)
  {
    StripTagsOfTagless(StripTags(s));
  }
}
