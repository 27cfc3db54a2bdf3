/**
 * The NOAA surf-bulletin parser (lib/noaa/parser.ts). Its input is the
 * already-decoded RSS channel: the build date and the items, each with a
 * title and an HTML description. It selects the island's forecast item and
 * the discussion item, reads the wave-height table and the day-info blocks
 * of the forecast, and the paragraphs of the discussion.
 */
module NoaaParser {
  import opened Wrappers
  import opened Text
  import opened Numbers
  import opened Patterns

  datatype Item = Item(title: String, description: String)

  /** The RSS channel: `lastBuildDate` and the `item` list. */
  datatype Channel = Channel(lastBuildDate: String, items: seq<Item>)

  datatype Trend = Increasing | Decreasing | Steady

  datatype WaveHeight = WaveHeight(
    direction: String,
    height: String,
    minHeight: Num,
    maxHeight: Num,
    trend: Trend,
    order: nat)

  datatype GeneralDayInfo = GeneralDayInfo(
    day: String,
    weather: String,
    temperature: String,
    winds: String,
    sunrise: String,
    sunset: String)

  datatype SurfReport = SurfReport(
    lastBuildDate: String,
    discussion: seq<String>,
    waveHeights: seq<WaveHeight>,
    generalDayInfo: seq<GeneralDayInfo>)

  datatype ParseError =
    | NotFound(message: String)  // the `Error` thrown when the island has no forecast item
    | DiscussionMissing          // the `TypeError` of reading `description` of an absent item

  /** Rows at the top of the wave-height table that are headers, not data. */
  const HeaderRows := 3

  /** Midpoints further apart than this make a trend. */
  const TrendThreshold := 0.5

  // ---------------------------------------------------------------------------
  // Item selection

  /** `s.charAt(0).toUpperCase() + s.slice(1).toLowerCase()`. */
  function CapitalizeFirstLetter(s: String): (r: String)
    ensures |r| == |s|
    ensures s != [] ==> r[0] == ToUpper(s[0])
    ensures forall i :: 1 <= i < |s| ==> r[i] == ToLower(s[i])
  {
    Uppercase(FirstChar(s)) + Lowercase(if s == [] then [] else s[1..])
  }

  /** Capitalizing an already capitalized name changes nothing. */
  lemma CapitalizeIdempotent(s: String)
    ensures CapitalizeFirstLetter(CapitalizeFirstLetter(s)) == CapitalizeFirstLetter(s)
  {
    var once := CapitalizeFirstLetter(s);
    var twice := CapitalizeFirstLetter(once);
    hide CapitalizeFirstLetter, ToUpper, ToLower;
    forall i | 0 <= i < |s| ensures twice[i] == once[i] {
      CaseMappingsSettle(s[i]);
    }
  }

  function ForecastTitle(island: String): String {
    "Forecast for " + CapitalizeFirstLetter(island)
  }

  /**
   * The title depends on the island only up to case: "oahu", "OAHU" and
   * "Oahu" select the same item.
   */
  lemma ForecastTitleIgnoresCase(a: String, b: String)
    requires Lowercase(a) == Lowercase(b)
    ensures ForecastTitle(a) == ForecastTitle(b)
  {
    var ca := CapitalizeFirstLetter(a);
    var cb := CapitalizeFirstLetter(b);
    hide CapitalizeFirstLetter, ToUpper, ToLower, Lowercase;
    forall i | 0 <= i < |a| ensures ca[i] == cb[i] {
      assert ToLower(a[i]) == Lowercase(a)[i] == Lowercase(b)[i] == ToLower(b[i]);
      CaseMappingsSettle(a[i]);
      CaseMappingsSettle(b[i]);
    }
  }

  const DiscussionTitle: String := "Discussion"

  /** The not-found error's message, which ends with the island as the caller gave it. */
  function NotFoundMessage(island: String): (m: String)
    ensures |island| <= |m| && m[|m| - |island|..] == island
  {
    "No forecast found for " + island
  }

  /** Index of the first item titled `title`. */
  function FindIndex(items: seq<Item>, title: String): (r: Option<nat>)
    ensures r.Some? ==> r.value < |items| && items[r.value].title == title
    ensures forall k :: 0 <= k < |items| && items[k].title == title ==> r.Some? && r.value <= k
  {
    if items == [] then None
    else if items[0].title == title then Some(0)
    else
      match FindIndex(items[1..], title)
      case None => None
      case Some(k) => Some(k + 1)
  }

  /** `items.find(item => item.title === title)`: the first item with that title. */
  function FindItem(items: seq<Item>, title: String): (r: Option<Item>)
    ensures r.None? <==> forall k :: 0 <= k < |items| ==> items[k].title != title
    ensures r.Some? ==> exists k :: 0 <= k < |items| && items[k] == r.value && r.value.title == title
                                    && forall j :: 0 <= j < k ==> items[j].title != title
  {
    match FindIndex(items, title)
    case None => None
    case Some(k) => Some(items[k])
  }

  // ---------------------------------------------------------------------------
  // Text clean-up shared by cells and paragraphs

  /** `s.replace(/<[^>]*>/g, "").trim()`. */
  function CleanText(s: String): (r: String)
    ensures IsTrimmed(r) && Tagless(r)
  {
    TrimKeepsTagless(StripTags(s));
    Trim(StripTags(s))
  }

  // ---------------------------------------------------------------------------
  // Discussion

  /** `.filter((p) => p.length > 0)`. */
  function FilterNonEmpty(xs: seq<String>): (r: seq<String>)
    ensures |r| <= |xs|
    ensures forall k :: 0 <= k < |r| ==> r[k] != [] && r[k] in xs
  {
    if xs == [] then []
    else if xs[0] == [] then FilterNonEmpty(xs[1..])
    else [xs[0]] + FilterNonEmpty(xs[1..])
  }

  /** `a` is `b` with some elements left out, the rest kept in order. */
  predicate IsSubsequence<T(==)>(a: seq<T>, b: seq<T>)
    decreases |b|
  {
    a == [] || (b != [] && ((a[0] == b[0] && IsSubsequence(a[1..], b[1..])) || IsSubsequence(a, b[1..])))
  }

  /**
   * The filter drops exactly the empty strings: it keeps the order, keeps
   * every non-empty string as often as it occurs, and keeps no empty one.
   */
  lemma {:induction false} FilterNonEmptyExact(xs: seq<String>)
    ensures IsSubsequence(FilterNonEmpty(xs), xs)
    ensures multiset(FilterNonEmpty(xs))[[]] == 0
    ensures forall x :: x != [] ==> multiset(FilterNonEmpty(xs))[x] == multiset(xs)[x]
  {
    if xs != [] {
      FilterNonEmptyExact(xs[1..]);
      assert xs == [xs[0]] + xs[1..];
      var rest := FilterNonEmpty(xs[1..]);
      if xs[0] != [] {
        assert ([xs[0]] + rest)[1..] == rest;
      }
    }
  }

  /** The cleaned text of every `<p>…</p>` match of the description, in order. */
  function CleanParagraphs(description: String): (r: seq<String>)
    ensures |r| == |MatchAll(Paragraph, description)|
    ensures forall k :: 0 <= k < |r| ==> IsTrimmed(r[k]) && Tagless(r[k])
  {
    var paragraphs := MatchAll(Paragraph, description);
    seq(|paragraphs|, k requires 0 <= k < |paragraphs| => CleanText(paragraphs[k]))
  }

  /** `parseDiscussion`: the non-empty cleaned paragraphs. */
  function ParseDiscussion(description: String): (r: seq<String>)
    ensures |r| <= |MatchAll(Paragraph, description)|
    ensures forall k :: 0 <= k < |r| ==> r[k] != [] && IsTrimmed(r[k]) && Tagless(r[k])
  {
    FilterNonEmpty(CleanParagraphs(description))
  }

  /**
   * The `<p>` pattern has no `s` flag, so a paragraph never spans a line: every
   * discussion paragraph is single-line.
   */
  lemma DiscussionSingleLine(description: String)
    ensures forall k :: 0 <= k < |ParseDiscussion(description)| ==> SingleLine(ParseDiscussion(description)[k])
  {
    var paragraphs := MatchAll(Paragraph, description);
    MatchAllSingleLine(Paragraph, description);
    var cleaned := CleanParagraphs(description);
    forall k | 0 <= k < |cleaned| ensures SingleLine(cleaned[k]) {
      SubMultisetKeepsSingleLine(StripTags(paragraphs[k]), paragraphs[k]);
      TrimKeepsSingleLine(StripTags(paragraphs[k]));
    }
  }

  /**
   * The discussion keeps the paragraphs in source order, and drops only the
   * ones that are empty once cleaned.
   */
  lemma DiscussionInSourceOrder(description: String)
    ensures IsSubsequence(ParseDiscussion(description), CleanParagraphs(description))
    ensures forall p :: p != [] ==>
              multiset(ParseDiscussion(description))[p] == multiset(CleanParagraphs(description))[p]
  {
    FilterNonEmptyExact(CleanParagraphs(description));
  }

  /** A `<p>` or `<td>` element whose text has no `<` cleans to its text, trimmed. */
  lemma CleanTextOfWrapped(p: Pattern, v: String)
    requires p == Paragraph || p == Cell
    requires '<' !in v
    ensures CleanText(Wrap(p, v)) == Trim(v)
  {
    if p == Paragraph {
      assert Wrap(p, v) == "<" + "p" + ">" + v + "<" + "/p" + ">";
      StripTagsOfEnclosed("p", v, "/p");
    } else {
      assert Wrap(p, v) == "<" + "td" + ">" + v + "<" + "/td" + ">";
      StripTagsOfEnclosed("td", v, "/td");
    }
  }

  /**
   * Paragraphs `<p>v</p>` one after the other, each `v` single-line and without
   * `<`, give one cleaned paragraph per `v`: `v` trimmed.
   */
  lemma CleanParagraphsReadBack(vs: seq<String>)
    requires forall k :: 0 <= k < |vs| ==> '<' !in vs[k] && SingleLine(vs[k])
    ensures |CleanParagraphs(WrapAll(Paragraph, vs))| == |vs|
    ensures forall k :: 0 <= k < |vs| ==> CleanParagraphs(WrapAll(Paragraph, vs))[k] == Trim(vs[k])
  {
    forall k | 0 <= k < |vs| ensures Wrappable(Paragraph, vs[k]) {
      WrappableWithoutCloserChar(Paragraph, vs[k]);
    }
    MatchAllOfWrapped(Paragraph, vs);
    forall k | 0 <= k < |vs| ensures CleanParagraphs(WrapAll(Paragraph, vs))[k] == Trim(vs[k]) {
      CleanTextOfWrapped(Paragraph, vs[k]);
    }
  }

  /** One paragraph `<p>v</p>` gives `v` trimmed, or nothing when that is empty. */
  lemma ParseDiscussionOfParagraph(v: String)
    requires '<' !in v && SingleLine(v)
    ensures ParseDiscussion("<p>" + v + "</p>") == if Trim(v) == [] then [] else [Trim(v)]
  {
    var d := "<p>" + v + "</p>";
    OneParagraphLayout(v);
    hide WrapAll, Wrap, Trim, TrimStart, TrimEnd, CleanText, StripTags, MatchAll, AllMatches,
      IsTrimmed, SingleLine, Tagless, Paragraph;
    CleanParagraphsReadBack([v]);
    var cleaned := CleanParagraphs(d);
    hide CleanParagraphs;
    assert cleaned == [Trim(v)];
    assert cleaned[1..] == [];
  }

  lemma OneParagraphLayout(v: String)
    ensures WrapAll(Paragraph, [v]) == "<p>" + v + "</p>"
  {
    WrapOf(Paragraph, "<p>", "</p>", v);
    assert [v][1..] == [];
    assert WrapAll(Paragraph, [v]) == Wrap(Paragraph, v) + [];
  }

  /** A `<p>` or `<td>` element around `v`. */
  lemma WrapOf(p: Pattern, lead: String, close: String, v: String)
    requires (p == Paragraph && lead == "<p>" && close == "</p>") || (p == Cell && lead == "<td>" && close == "</td>")
    ensures Wrap(p, v) == lead + v + close
  {
  }

  /** Three wrapped groups, one after the other. */
  lemma WrapAllOfThree(p: Pattern, vs: seq<String>)
    requires |vs| == 3
    ensures WrapAll(p, vs) == Wrap(p, vs[0]) + Wrap(p, vs[1]) + Wrap(p, vs[2])
  {
    assert WrapAll(p, vs[1..][1..][1..]) == [];
    assert WrapAll(p, vs[1..][1..]) == Wrap(p, vs[2]);
    assert WrapAll(p, vs[1..]) == Wrap(p, vs[1]) + Wrap(p, vs[2]);
    assert WrapAll(p, vs) == Wrap(p, vs[0]) + (Wrap(p, vs[1]) + Wrap(p, vs[2]));
  }

  lemma ExampleDiscussionLayout()
    ensures WrapAll(Paragraph, ["Surf building.", "", "  "]) == "<p>Surf building.</p><p></p><p>  </p>"
  {
    var vs: seq<String> := ["Surf building.", "", "  "];
    WrapAllOfThree(Paragraph, vs);
    WrapOf(Paragraph, "<p>", "</p>", "Surf building.");
    WrapOf(Paragraph, "<p>", "</p>", "");
    WrapOf(Paragraph, "<p>", "</p>", "  ");
    ExampleDiscussionPieces();
  }

  lemma ExampleDiscussionPieces()
    ensures "<p>" + "Surf building." + "</p>" + ("<p>" + "" + "</p>") + ("<p>" + "  " + "</p>")
            == "<p>Surf building.</p><p></p><p>  </p>"
  {
  }

  /** A bulletin with one paragraph of text, one empty and one blank gives just the text. */
  lemma DiscussionExample()
    ensures ParseDiscussion("<p>Surf building.</p><p></p><p>  </p>") == ["Surf building."]
  {
    var vs: seq<String> := ["Surf building.", "", "  "];
    var d := "<p>Surf building.</p><p></p><p>  </p>";
    ExampleDiscussionLayout();
    ExampleDiscussionTexts();
    hide WrapAll, Wrap, Trim, TrimStart, TrimEnd, CleanText, StripTags, MatchAll, AllMatches,
      IsTrimmed, AllWhiteSpace, SingleLine, IsWhiteSpace;
    CleanParagraphsReadBack(vs);
    TrimOfTrimmed(vs[0]);
    TrimOfBlank(vs[1]);
    TrimOfBlank(vs[2]);
    var cleaned := CleanParagraphs(d);
    hide CleanParagraphs;
    assert cleaned == [vs[0], [], []];
    assert cleaned[1..][1..][1..] == [];
  }

  lemma ExampleDiscussionTexts()
    ensures '<' !in "Surf building." && SingleLine("Surf building.") && IsTrimmed("Surf building.")
    ensures '<' !in "" && SingleLine("") && AllWhiteSpace("")
    ensures '<' !in "  " && SingleLine("  ") && AllWhiteSpace("  ")
  {
  }

  // ---------------------------------------------------------------------------
  // Collecting the rows and sections that yield a value

  /** The values of the `Some` entries, in order: what pushing only for some elements collects. */
  function Present<T>(xs: seq<Option<T>>): (r: seq<T>)
    ensures |r| <= |xs|
  {
    if xs == [] then []
    else
      var n := |xs| - 1;
      Present(xs[..n]) + (if xs[n].Some? then [xs[n].value] else [])
  }

  /** Extending a prefix by one entry extends `Present` by that entry's value, if any. */
  lemma PresentOfPrefix<T>(xs: seq<Option<T>>, n: nat)
    requires n < |xs|
    ensures Present(xs[..n + 1]) == Present(xs[..n]) + (if xs[n].Some? then [xs[n].value] else [])
  {
    assert xs[..n + 1][..n] == xs[..n];
  }

  /** The indices of the `Some` entries, in increasing order. */
  function SomeIndices<T>(xs: seq<Option<T>>): (ks: seq<nat>)
    ensures forall j :: 0 <= j < |ks| ==> ks[j] < |xs| && xs[ks[j]].Some?
    ensures forall i, j :: 0 <= i < j < |ks| ==> ks[i] < ks[j]
  {
    if xs == [] then []
    else
      var n := |xs| - 1;
      SomeIndices(xs[..n]) + (if xs[n].Some? then [n] else [])
  }

  /**
   * `Present` keeps exactly the `Some` entries: its `j`-th value is the entry
   * at the `j`-th `Some` index, and every `Some` index is among them.
   */
  lemma {:induction false} PresentAtSomeIndices<T>(xs: seq<Option<T>>)
    ensures |Present(xs)| == |SomeIndices(xs)|
    ensures forall j :: 0 <= j < |Present(xs)| ==> xs[SomeIndices(xs)[j]] == Some(Present(xs)[j])
    ensures forall k :: 0 <= k < |xs| && xs[k].Some? ==> k in SomeIndices(xs)
  {
    if xs != [] {
      var n := |xs| - 1;
      var front := xs[..n];
      PresentAtSomeIndices(front);
      var vs, ks := Present(front), SomeIndices(front);
      assert Present(xs) == vs + (if xs[n].Some? then [xs[n].value] else []);
      assert SomeIndices(xs) == ks + (if xs[n].Some? then [n] else []);
      hide Present, SomeIndices;
      forall j | 0 <= j < |Present(xs)| ensures xs[SomeIndices(xs)[j]] == Some(Present(xs)[j]) {
        if j < |vs| {
          assert Present(xs)[j] == vs[j] && SomeIndices(xs)[j] == ks[j];
          assert front[ks[j]] == xs[ks[j]];
        }
      }
      forall k | 0 <= k < |xs| && xs[k].Some? ensures k in SomeIndices(xs) {
        if k < n {
          assert front[k] == xs[k];
          var i :| 0 <= i < |ks| && ks[i] == k;
          assert SomeIndices(xs)[i] == k;
        }
      }
    }
  }

  /** With no `None`, every index is kept, in order. */
  lemma {:induction false} AllPresent<T>(xs: seq<Option<T>>)
    requires forall k :: 0 <= k < |xs| ==> xs[k].Some?
    ensures |SomeIndices(xs)| == |xs|
    ensures forall j :: 0 <= j < |xs| ==> SomeIndices(xs)[j] == j
  {
    if xs != [] {
      var n := |xs| - 1;
      assert forall k :: 0 <= k < n ==> xs[..n][k] == xs[k];
      AllPresent(xs[..n]);
    }
  }

  // ---------------------------------------------------------------------------
  // Wave heights

  /**
   * The rows of the first table of the description: every `<tr…</tr>` match
   * in it; none when there is no table.
   */
  function TableRows(description: String): (rows: seq<String>)
    ensures FirstMatch(Table, description, 0).None? ==> rows == []
    ensures forall k :: 0 <= k < |rows| ==>
              8 <= |rows[k]| && rows[k][..3] == "<tr" && rows[k][|rows[k]| - 5..] == "</tr>"
  {
    match FirstMatch(Table, description, 0)
    case None => []
    case Some(m) =>
      MatchAllShape(Row, TextOf(description, m));
      MatchAll(Row, TextOf(description, m))
  }

  /** `rows.slice(3)`: the rows below the header. */
  function DataRows(description: String): (rows: seq<String>)
    ensures |rows| == if |TableRows(description)| <= HeaderRows then 0 else |TableRows(description)| - HeaderRows
    ensures forall k :: 0 <= k < |rows| ==> rows[k] == TableRows(description)[k + HeaderRows]
  {
    var all := TableRows(description);
    if |all| <= HeaderRows then [] else all[HeaderRows..]
  }

  /** `row.match(/<td[^>]*>(.*?)<\/td>/g)`: the full text of every cell. */
  function CellsOf(row: String): (cells: seq<String>)
    ensures forall k :: 0 <= k < |cells| ==>
              8 <= |cells[k]| && cells[k][..3] == "<td" && cells[k][|cells[k]| - 5..] == "</td>"
  {
    MatchAllShape(Cell, row);
    MatchAll(Cell, row)
  }

  /**
   * `const [min, max] = height.split("-").map(parseFloat)`: the min reads the
   * text before the first `-` (all of it when there is none); the max reads the
   * text between the first and the second `-`, and is `undefined` when there is
   * no `-`, since destructuring then reads past the one piece.
   */
  function HeightRange(height: String): (r: (Num, Num))
    ensures '-' !in height ==> r == (ParseFloat(height), Undefined)
    ensures '-' in height ==>
              var k := IndexOf(height, '-');
              var rest := height[k + 1..];
              && r.0 == ParseFloat(height[..k])
              && r.1 == ParseFloat(if '-' in rest then rest[..IndexOf(rest, '-')] else rest)
  {
    var parts := Split(height, '-');
    SplitHead(height, '-');
    SplitHead(height[if '-' in height then IndexOf(height, '-') + 1 else 0..], '-');
    (ParseFloat(parts[0]), if |parts| >= 2 then ParseFloat(parts[1]) else Undefined)
  }

  /** A range of two digit strings reads as the two integers. */
  lemma HeightRangeOfDigits(lo: String, hi: String)
    requires lo != [] && AllDigits(lo) && hi != [] && AllDigits(hi)
    ensures HeightRange(lo + "-" + hi) == (Fin(DigitsValue(lo) as real), Fin(DigitsValue(hi) as real))
  {
    var h := lo + "-" + hi;
    assert '-' !in lo by {
      forall i | 0 <= i < |lo| ensures lo[i] != '-' { assert IsDigit(lo[i]); }
    }
    assert '-' !in hi by {
      forall i | 0 <= i < |hi| ensures hi[i] != '-' { assert IsDigit(hi[i]); }
    }
    assert h[|lo|] == '-';
    assert h[..|lo|] == lo;
    assert IndexOf(h, '-') == |lo|;
    assert h[|lo| + 1..] == hi;
    assert Split(h, '-') == [lo, hi];
    ParseFloatOfDigits(lo);
    ParseFloatOfDigits(hi);
  }

  /**
   * `(min + max) / 2`: a number only when both bounds are, and then between
   * them.
   */
  function Midpoint(min: Num, max: Num): (r: Num)
    ensures r.Fin? <==> min.Fin? && max.Fin?
    ensures r.Fin? && min.value <= max.value ==> min.value <= r.value <= max.value
    ensures r.Fin? ==> r.value - min.value == max.value - r.value
  {
    Half(Add(min, max))
  }

  /**
   * The trend from the current range to the next: increasing when the next
   * midpoint is more than 0.5 above the current one, decreasing when more than
   * 0.5 below, otherwise steady, which includes a difference of exactly 0.5 and
   * any `NaN` or `undefined` bound.
   */
  function TrendOf(currentMin: Num, currentMax: Num, nextMin: Num, nextMax: Num): (t: Trend)
    ensures var current := Midpoint(currentMin, currentMax);
            var next := Midpoint(nextMin, nextMax);
            && (t == Increasing <==> current.Fin? && next.Fin? && next.value - current.value > TrendThreshold)
            && (t == Decreasing <==> current.Fin? && next.Fin? && next.value - current.value < -TrendThreshold)
    ensures !(currentMin.Fin? && currentMax.Fin? && nextMin.Fin? && nextMax.Fin?) ==> t == Steady
  {
    var difference := Sub(Midpoint(nextMin, nextMax), Midpoint(currentMin, currentMax));
    if Exceeds(Abs(difference), TrendThreshold) then
      if Exceeds(difference, 0.0) then Increasing else Decreasing
    else Steady
  }

  /**
   * A compact row whose heights read "3-5" and then "4-6": midpoints 4 and 5,
   * so the trend is increasing; a difference of exactly 0.5 stays steady.
   */
  lemma CompactRowTrend()
    ensures HeightRange("3-5") == (Fin(3.0), Fin(5.0))
    ensures HeightRange("4-6") == (Fin(4.0), Fin(6.0))
    ensures TrendOf(Fin(3.0), Fin(5.0), Fin(4.0), Fin(6.0)) == Increasing
    ensures TrendOf(Fin(3.0), Fin(5.0), Fin(3.0), Fin(6.0)) == Steady
  {
    hide ParseFloat, Split;
    assert AllDigits("3") && AllDigits("4") && AllDigits("5") && AllDigits("6");
    assert DigitsValue("3") == 3 && DigitsValue("4") == 4 && DigitsValue("5") == 5 && DigitsValue("6") == 6;
    HeightRangeOfDigits("3", "5");
    assert "3" + "-" + "5" == "3-5";
    HeightRangeOfDigits("4", "6");
    assert "4" + "-" + "6" == "4-6";
  }

  /**
   * The entry the `forEach` callback pushes for the data row at `index`, or
   * nothing when the row has fewer than three cells.
   */
  function RowEntry(row: String, index: nat): (e: Option<WaveHeight>)
    ensures e.Some? <==> |CellsOf(row)| >= 3
    ensures e.Some? ==> e.value.order == index
  {
    var cells := CellsOf(row);
    if |cells| < 3 then None
    else
      var currentHeight := CleanText(cells[1]);
      var nextHeight := CleanText(cells[2]);
      var current := HeightRange(currentHeight);
      var next := HeightRange(nextHeight);
      Some(WaveHeight(FirstChar(CleanText(cells[0])), currentHeight, current.0, current.1,
                      TrendOf(current.0, current.1, next.0, next.1), index))
  }

  /**
   * What an entry holds: a direction of at most one character that starts
   * the cleaned first cell, the cleaned second cell as height, and the bounds
   * read from the two halves of that height around its first `-`.
   */
  lemma RowEntryFields(row: String, index: nat)
    requires RowEntry(row, index).Some?
    ensures var e := RowEntry(row, index).value;
            var cells := CellsOf(row);
            && |e.direction| <= 1
            && e.direction == CleanText(cells[0])[..|e.direction|]
            && (e.direction == [] <==> CleanText(cells[0]) == [])
            && e.height == CleanText(cells[1]) && IsTrimmed(e.height) && Tagless(e.height)
            && e.minHeight == ParseFloat(Split(e.height, '-')[0])
            && (e.maxHeight == Undefined <==> '-' !in e.height)
            && (|Split(e.height, '-')| >= 2 ==> e.maxHeight == ParseFloat(Split(e.height, '-')[1]))
            && e.trend == TrendOf(e.minHeight, e.maxHeight,
                                  HeightRange(CleanText(cells[2])).0, HeightRange(CleanText(cells[2])).1)
  {
    var e := RowEntry(row, index).value;
    var parts := Split(e.height, '-');
    if '-' !in e.height {
      assert |parts| == 1;
    }
  }

  /**
   * Cells `<td>v</td>` one after the other, each `v` single-line and without
   * `<`, are one cell per `v`, and each cleans to `v` trimmed.
   */
  lemma CellsReadBack(vs: seq<String>)
    requires forall k :: 0 <= k < |vs| ==> '<' !in vs[k] && SingleLine(vs[k])
    ensures |CellsOf(WrapAll(Cell, vs))| == |vs|
    ensures forall k :: 0 <= k < |vs| ==> CleanText(CellsOf(WrapAll(Cell, vs))[k]) == Trim(vs[k])
  {
    forall k | 0 <= k < |vs| ensures Wrappable(Cell, vs[k]) {
      WrappableWithoutCloserChar(Cell, vs[k]);
    }
    MatchAllOfWrapped(Cell, vs);
    forall k | 0 <= k < |vs| ensures CleanText(CellsOf(WrapAll(Cell, vs))[k]) == Trim(vs[k]) {
      CleanTextOfWrapped(Cell, vs[k]);
    }
  }

  lemma ExampleRowLayout()
    ensures WrapAll(Cell, ["N", "3-5", "4-6"]) == "<td>N</td><td>3-5</td><td>4-6</td>"
  {
    var vs: seq<String> := ["N", "3-5", "4-6"];
    WrapAllOfThree(Cell, vs);
    WrapOf(Cell, "<td>", "</td>", "N");
    WrapOf(Cell, "<td>", "</td>", "3-5");
    WrapOf(Cell, "<td>", "</td>", "4-6");
    ExampleRowPieces();
  }

  lemma ExampleRowPieces()
    ensures "<td>" + "N" + "</td>" + ("<td>" + "3-5" + "</td>") + ("<td>" + "4-6" + "</td>")
            == "<td>N</td><td>3-5</td><td>4-6</td>"
  {
  }

  /** The cells of the compact row `<td>N</td><td>3-5</td><td>4-6</td>`, cleaned. */
  lemma ExampleRowCells()
    ensures var cells := CellsOf("<td>N</td><td>3-5</td><td>4-6</td>");
            && |cells| == 3
            && CleanText(cells[0]) == "N" && CleanText(cells[1]) == "3-5" && CleanText(cells[2]) == "4-6"
  {
    var vs: seq<String> := ["N", "3-5", "4-6"];
    ExampleRowLayout();
    ExampleRowTexts();
    hide WrapAll, Wrap, Trim, TrimStart, TrimEnd, CleanText, StripTags, MatchAll, AllMatches, CellsOf,
      IsTrimmed, SingleLine, IsWhiteSpace;
    CellsReadBack(vs);
    TrimOfTrimmed(vs[0]);
    TrimOfTrimmed(vs[1]);
    TrimOfTrimmed(vs[2]);
  }

  lemma ExampleRowTexts()
    ensures '<' !in "N" && SingleLine("N") && IsTrimmed("N")
    ensures '<' !in "3-5" && SingleLine("3-5") && IsTrimmed("3-5")
    ensures '<' !in "4-6" && SingleLine("4-6") && IsTrimmed("4-6")
  {
  }

  /**
   * A compact data row with direction N, height 3-5 and next height 4-6 reads
   * as direction "N", height "3-5", bounds 3 and 5, increasing.
   */
  lemma RowEntryExample(index: nat)
    ensures RowEntry("<td>N</td><td>3-5</td><td>4-6</td>", index)
            == Some(WaveHeight("N", "3-5", Fin(3.0), Fin(5.0), Increasing, index))
  {
    ExampleRowCells();
    CompactRowTrend();
    hide CellsOf, CleanText, HeightRange, TrendOf;
    assert FirstChar("N") == "N";
  }

  /** The entry, if any, of each data row, indexed by row. */
  function RowEntries(rows: seq<String>): (entries: seq<Option<WaveHeight>>)
    ensures |entries| == |rows|
    ensures forall k :: 0 <= k < |rows| ==> entries[k] == RowEntry(rows[k], k)
  {
    seq(|rows|, k requires 0 <= k < |rows| => RowEntry(rows[k], k))
  }

  /** The entries `parseWaveHeights` pushes for the data rows `rows`, in row order. */
  function CollectWaveHeights(rows: seq<String>): (r: seq<WaveHeight>)
    ensures |r| <= |rows|
  {
    Present(RowEntries(rows))
  }

  /**
   * The entries are exactly the rows that have three cells: every entry is the
   * one its row gives, the orders strictly increase, and a row is represented
   * iff it has at least three cells.
   */
  lemma WaveHeightsMatchRows(rows: seq<String>)
    ensures var r := CollectWaveHeights(rows);
            forall j :: 0 <= j < |r| ==> r[j].order < |rows| && RowEntry(rows[r[j].order], r[j].order) == Some(r[j])
    ensures StrictlyIncreasingOrders(CollectWaveHeights(rows))
    ensures var r := CollectWaveHeights(rows);
            forall k :: 0 <= k < |rows| ==> ((exists j :: 0 <= j < |r| && r[j].order == k) <==> |CellsOf(rows[k])| >= 3)
  {
    hide RowEntry;
    var entries := RowEntries(rows);
    PresentByOrder(entries);
    var r := CollectWaveHeights(rows);
    assert r == Present(entries);
    forall j | 0 <= j < |r|
      ensures r[j].order < |rows| && RowEntry(rows[r[j].order], r[j].order) == Some(r[j])
    {
      assert entries[r[j].order] == Some(r[j]);
    }
    forall k | 0 <= k < |rows|
      ensures (exists j :: 0 <= j < |r| && r[j].order == k) <==> |CellsOf(rows[k])| >= 3
    {
      assert entries[k] == RowEntry(rows[k], k);
    }
  }

  /**
   * Collecting entries whose order is their index: each value is the entry at
   * its order, the orders strictly increase, and an index is some value's
   * order iff its entry is present.
   */
  lemma PresentByOrder(entries: seq<Option<WaveHeight>>)
    requires forall k :: 0 <= k < |entries| && entries[k].Some? ==> entries[k].value.order == k
    ensures var r := Present(entries);
            forall j :: 0 <= j < |r| ==> r[j].order < |entries| && entries[r[j].order] == Some(r[j])
    ensures StrictlyIncreasingOrders(Present(entries))
    ensures var r := Present(entries);
            forall k :: 0 <= k < |entries| ==> ((exists j :: 0 <= j < |r| && r[j].order == k) <==> entries[k].Some?)
  {
    PresentAtSomeIndices(entries);
    var r := Present(entries);
    var ks := SomeIndices(entries);
    assert forall j :: 0 <= j < |r| ==> r[j].order == ks[j];
    forall k | 0 <= k < |entries| && entries[k].Some?
      ensures exists j :: 0 <= j < |r| && r[j].order == k
    {
      var j :| 0 <= j < |ks| && ks[j] == k;
      assert r[j].order == k;
    }
  }

  /**
   * When every data row has three cells (3 header rows and N full data rows),
   * there are exactly N entries and their orders are 0, 1, ..., N - 1.
   */
  lemma FullRowsGiveConsecutiveOrders(rows: seq<String>)
    requires forall k :: 0 <= k < |rows| ==> |CellsOf(rows[k])| >= 3
    ensures |CollectWaveHeights(rows)| == |rows|
    ensures forall j :: 0 <= j < |rows| ==> CollectWaveHeights(rows)[j].order == j
  {
    hide RowEntry;
    var entries := RowEntries(rows);
    forall k | 0 <= k < |rows| ensures entries[k].Some? && entries[k].value.order == k {
      assert entries[k] == RowEntry(rows[k], k);
    }
    PresentOfOrderedEntries(entries);
  }

  /** With every entry present and ordered by its index, all are kept, in index order. */
  lemma PresentOfOrderedEntries(entries: seq<Option<WaveHeight>>)
    requires forall k :: 0 <= k < |entries| ==> entries[k].Some? && entries[k].value.order == k
    ensures |Present(entries)| == |entries|
    ensures forall j :: 0 <= j < |entries| ==> Present(entries)[j].order == j
  {
    AllPresent(entries);
    PresentAtSomeIndices(entries);
    forall j | 0 <= j < |entries| ensures Present(entries)[j].order == j {
      assert entries[SomeIndices(entries)[j]] == Some(Present(entries)[j]);
    }
  }

  /**
   * The rows are read from the leftmost table match: any match with no match
   * starting before it gives every row match in its text, and without a table
   * there are no rows.
   */
  lemma TableRowsOfLeftmostTable(description: String)
    ensures forall m :: IsMatchOf(Table, description, m) && NoMatchIn(Table, description, 0, m.start) ==>
              TableRows(description) == MatchAll(Row, TextOf(description, m))
    ensures NoMatchIn(Table, description, 0, |description|) ==> TableRows(description) == []
  {
    forall m | IsMatchOf(Table, description, m) && NoMatchIn(Table, description, 0, m.start)
      ensures FirstMatch(Table, description, 0) == Some(m)
    {
      LeftmostIsFirstMatch(Table, description, 0, m);
    }
    if NoMatchIn(Table, description, 0, |description|) {
      NoMatchIsNoFirstMatch(Table, description, 0);
    }
  }

  /** `<table>inner</table>`: `inner` lies at 7, and no row starts in the tags around it. */
  lemma TableEdgesHoldNoRow(inner: String)
    ensures |Wrap(Table, inner)| == 15 + |inner|
    ensures Wrap(Table, inner)[7..7 + |inner|] == inner
    ensures NoMatchIn(Row, Wrap(Table, inner), 0, 7)
    ensures NoMatchIn(Row, Wrap(Table, inner), 7 + |inner|, 15 + |inner|)
  {
    var t := Wrap(Table, inner);
    var n := |inner|;
    assert t == "<table>" + inner + "</table>";
    assert t[0..|t|] == t;
    ThreeParts(t, 0, "<table>", inner, "</table>");
    hide Wrap, Lead;
    TagsLackRowOpener();
    TagHoldsNoRow(t, 0, "<table>");
    TagHoldsNoRow(t, 7 + n, "</table>");
  }

  /** Neither table tag holds the row opener. */
  lemma TagsLackRowOpener()
    ensures !StartsWithAt("<table>", 0, "<tr") && forall j :: 1 <= j < 7 ==> "<table>"[j] != '<'
    ensures !StartsWithAt("</table>", 0, "<tr") && forall j :: 1 <= j < 8 ==> "</table>"[j] != '<'
  {
    assert "<table>"[..3] == "<ta";
    assert "</table>"[..3] == "</t";
  }

  /** No row starts within a tag at `i` that holds `<` only first and does not open with `<tr`. */
  lemma TagHoldsNoRow(s: String, i: nat, tag: String)
    requires 3 <= |tag| && i + |tag| <= |s| && s[i..i + |tag|] == tag
    requires !StartsWithAt(tag, 0, "<tr") && forall j :: 1 <= j < |tag| ==> tag[j] != '<'
    ensures NoMatchIn(Row, s, i, i + |tag|)
  {
    forall k | i <= k < i + |tag| ensures !StartsWithAt(s, k, Row.opener) {
      if k == i {
        StartsWithWithin(s, i, tag, 0, "<tr");
      } else {
        StartsWithAtChar(s, k, "<tr", 0);
        assert s[k] == s[i..i + |tag|][k - i];
      }
    }
    NoOpenerNoMatch(Row, s, i, i + |tag|);
  }

  /**
   * Reading back a table: in `<table>R0…Rk</table>`, with each `Ri` the row
   * `<tr…</tr>` around a group that holds no `</tr>` and no `</table>` ahead
   * of the closing tags, the rows are exactly `R0, …, Rk`, in order.
   */
  lemma TableRowsReadBack(vs: seq<String>)
    requires forall k :: 0 <= k < |vs| ==> Wrappable(Row, vs[k])
    requires Wrappable(Table, WrapAll(Row, vs))
    ensures |TableRows(Wrap(Table, WrapAll(Row, vs)))| == |vs|
    ensures forall k :: 0 <= k < |vs| ==> TableRows(Wrap(Table, WrapAll(Row, vs)))[k] == Wrap(Row, vs[k])
  {
    var inner := WrapAll(Row, vs);
    var t := Wrap(Table, inner);
    var n := |inner|;
    TableEdgesHoldNoRow(inner);
    assert t[0..|t|] == t;
    WrapMatchAt(Table, t, 0, inner);
    assert TextOf(t, FirstMatch(Table, t, 0).value) == t;
    NoMatchInSkips(Row, t, 0, 7);
    AllMatchesOfWrapped(Row, t, 7, 7 + n, vs);
  }

  /**
   * Three header rows and then rows of at least three cells each give one
   * wave-height entry per data row, with orders 0, 1, …: what the chart reads.
   */
  lemma TableGivesConsecutiveOrders(vs: seq<String>)
    requires forall k :: 0 <= k < |vs| ==> Wrappable(Row, vs[k])
    requires Wrappable(Table, WrapAll(Row, vs))
    requires forall k :: HeaderRows <= k < |vs| ==> |CellsOf(Wrap(Row, vs[k]))| >= 3
    ensures |CollectWaveHeights(DataRows(Wrap(Table, WrapAll(Row, vs))))| ==
              if |vs| <= HeaderRows then 0 else |vs| - HeaderRows
    ensures forall j :: 0 <= j < |CollectWaveHeights(DataRows(Wrap(Table, WrapAll(Row, vs))))| ==>
              CollectWaveHeights(DataRows(Wrap(Table, WrapAll(Row, vs))))[j].order == j
  {
    var d := Wrap(Table, WrapAll(Row, vs));
    TableRowsReadBack(vs);
    var rows := DataRows(d);
    forall k | 0 <= k < |rows| ensures |CellsOf(rows[k])| >= 3 {
      assert rows[k] == Wrap(Row, vs[k + HeaderRows]);
    }
    FullRowsGiveConsecutiveOrders(rows);
  }

  /** Inserts `x` before the first entry whose order is not smaller, so before entries of equal order. */
  function InsertByOrder(x: WaveHeight, ys: seq<WaveHeight>): (r: seq<WaveHeight>)
    ensures multiset(r) == multiset(ys) + multiset{x}
  {
    if ys == [] || x.order <= ys[0].order then [x] + ys
    else
      assert ys == [ys[0]] + ys[1..];
      [ys[0]] + InsertByOrder(x, ys[1..])
  }

  /**
   * `waveHeights.sort((a, b) => a.order - b.order)`: a stable sort by order,
   * as `Array.prototype.sort` is.
   */
  function SortByOrder(xs: seq<WaveHeight>): (r: seq<WaveHeight>)
    ensures multiset(r) == multiset(xs)
  {
    if xs == [] then []
    else
      assert xs == [xs[0]] + xs[1..];
      InsertByOrder(xs[0], SortByOrder(xs[1..]))
  }

  /** Orders never decrease from one entry to the next. */
  predicate SortedByOrder(xs: seq<WaveHeight>) {
    forall i, j :: 0 <= i < j < |xs| ==> xs[i].order <= xs[j].order
  }

  /** Inserting into a sorted sequence keeps it sorted. */
  lemma {:induction false} InsertByOrderSorted(x: WaveHeight, ys: seq<WaveHeight>)
    requires SortedByOrder(ys)
    ensures SortedByOrder(InsertByOrder(x, ys))
    ensures InsertByOrder(x, ys) != []
    ensures InsertByOrder(x, ys)[0] == x || (ys != [] && InsertByOrder(x, ys)[0] == ys[0])
  {
    if ys != [] && x.order > ys[0].order {
      InsertByOrderSorted(x, ys[1..]);
      var rest := InsertByOrder(x, ys[1..]);
      assert rest[0] == x || rest[0] == ys[1];
    }
  }

  /** The sort's output is ordered by `order` (and, by its contract, a permutation of its input). */
  lemma {:induction false} SortByOrderSorts(xs: seq<WaveHeight>)
    ensures SortedByOrder(SortByOrder(xs))
  {
    if xs != [] {
      SortByOrderSorts(xs[1..]);
      InsertByOrderSorted(xs[0], SortByOrder(xs[1..]));
    }
  }

  predicate StrictlyIncreasingOrders(xs: seq<WaveHeight>) {
    forall i, j :: 0 <= i < j < |xs| ==> xs[i].order < xs[j].order
  }

  /** Sorting entries whose orders already increase leaves them as they are. */
  lemma {:induction false} SortOfIncreasingIsIdentity(xs: seq<WaveHeight>)
    requires StrictlyIncreasingOrders(xs)
    ensures SortByOrder(xs) == xs
  {
    if xs != [] {
      SortOfIncreasingIsIdentity(xs[1..]);
      assert xs == [xs[0]] + xs[1..];
    }
  }

  /**
   * The `forEach` callback for the data row at `index`: the entry it pushes,
   * if any, with the trend kept in a variable that starts out steady.
   */
  method ParseRow(row: String, index: nat) returns (entry: Option<WaveHeight>)
    ensures entry == RowEntry(row, index)
  {
    var cells := MatchAll(Cell, row);
    if |cells| < 3 {
      return None;
    }
    var direction := FirstChar(CleanText(cells[0]));
    var currentHeight := CleanText(cells[1]);
    var nextHeight := CleanText(cells[2]);
    var current := HeightRange(currentHeight);
    var next := HeightRange(nextHeight);
    var currentAvg := Midpoint(current.0, current.1);
    var nextAvg := Midpoint(next.0, next.1);
    var trend := Steady;
    var difference := Sub(nextAvg, currentAvg);
    if Exceeds(Abs(difference), TrendThreshold) {
      trend := if Exceeds(difference, 0.0) then Increasing else Decreasing;
    }
    entry := Some(WaveHeight(direction, currentHeight, current.0, current.1, trend, index));
  }

  /**
   * `parseWaveHeights`: the rows of the first table below the three header
   * rows, one entry per row with at least three cells, sorted by order.
   */
  method ParseWaveHeights(description: String) returns (waveHeights: seq<WaveHeight>)
    ensures waveHeights == CollectWaveHeights(DataRows(description))
    ensures FirstMatch(Table, description, 0).None? ==> waveHeights == []
    ensures |waveHeights| <= if |TableRows(description)| <= HeaderRows then 0 else |TableRows(description)| - HeaderRows
  {
    waveHeights := [];
    var tableMatch := FirstMatch(Table, description, 0);
    if tableMatch.None? {
      return;
    }
    var rows := MatchAll(Row, TextOf(description, tableMatch.value));
    var dataRows := if |rows| <= HeaderRows then [] else rows[HeaderRows..];
    assert dataRows == DataRows(description);
    waveHeights := ParseRows(dataRows);
    WaveHeightsMatchRows(dataRows);
    SortOfIncreasingIsIdentity(waveHeights);
    waveHeights := SortByOrder(waveHeights);
  }

  /** `dataRows.forEach(...)`: pushes the entry of each data row that has one, in row order. */
  method ParseRows(dataRows: seq<String>) returns (waveHeights: seq<WaveHeight>)
    ensures waveHeights == CollectWaveHeights(dataRows)
  {
    waveHeights := [];
    ghost var entries := RowEntries(dataRows);
    var index := 0;
    while index < |dataRows|
      invariant 0 <= index <= |dataRows|
      invariant waveHeights == Present(entries[..index])
    {
      var entry := ParseRow(dataRows[index], index);
      PresentOfPrefix(entries, index);
      assert entries[index] == entry;
      if entry.Some? {
        waveHeights := waveHeights + [entry.value];
      }
      index := index + 1;
    }
    assert entries[..index] == entries;
  }

  // ---------------------------------------------------------------------------
  // General day info

  /**
   * `extractField`: the trimmed first capture of
   * `${field}[^>]*</th><td[^>]*>(.*?)</td>`, or "" when it does not match.
   */
  function ExtractField(section: String, field: String): (r: String)
    ensures FirstMatch(Field(field), section, 0).None? ==> r == []
    ensures IsTrimmed(r) && SingleLine(r)
  {
    match FirstMatch(Field(field), section, 0)
    case None => []
    case Some(m) =>
      FirstMatchSound(Field(field), section, 0);
      var value := GroupOf(section, m);
      assert SingleLine(value);
      TrimKeepsSingleLine(value);
      Trim(value)
  }

  /**
   * `extractField` reads the capture of the leftmost match of the field
   * pattern, trimmed: any match with no match starting before it determines
   * the value, and without any match the value is "".
   */
  lemma ExtractFieldIsLeftmostCapture(section: String, field: String)
    ensures forall m :: IsMatchOf(Field(field), section, m) && NoMatchIn(Field(field), section, 0, m.start) ==>
              ExtractField(section, field) == Trim(GroupOf(section, m))
    ensures NoMatchIn(Field(field), section, 0, |section|) ==> ExtractField(section, field) == []
    ensures FirstMatch(Field(field), section, 0).Some? ==>
              exists m :: IsMatchOf(Field(field), section, m) && NoMatchIn(Field(field), section, 0, m.start)
                          && ExtractField(section, field) == Trim(GroupOf(section, m))
  {
    var p := Field(field);
    forall m | IsMatchOf(p, section, m) && NoMatchIn(p, section, 0, m.start)
      ensures ExtractField(section, field) == Trim(GroupOf(section, m))
    {
      LeftmostIsFirstMatch(p, section, 0, m);
    }
    if NoMatchIn(p, section, 0, |section|) {
      NoMatchIsNoFirstMatch(p, section, 0);
    }
    if FirstMatch(p, section, 0).Some? {
      var m := FirstMatch(p, section, 0).value;
      FirstMatchSound(p, section, 0);
      FirstMatchIsLeftmost(p, section, 0);
      assert IsMatchOf(p, section, m) && NoMatchIn(p, section, 0, m.start);
    }
  }

  /** A field cell `name</th><td>v</td>` reads back as `v` trimmed. */
  lemma ExtractFieldReadsCell(field: String, v: String)
    requires '<' !in v && SingleLine(v)
    ensures ExtractField(field + "</th><td>" + v + "</td>", field) == Trim(v)
  {
    var s := field + "</th><td>" + v + "</td>";
    var m := Match(0, |s|, |field| + 9, |field| + 9 + |v|);
    assert s == [] + field + "</th><td>" + v + "</td>";
    FieldMatchOfCell([], field, v);
    FieldCellLayout([], field, v);
    LeftmostIsFirstMatch(Field(field), s, 0, m);
    assert GroupOf(s, m) == v;
  }

  /** `Object.values(info).some((value) => value)`: some value is a non-empty string. */
  predicate HasValue(info: GeneralDayInfo) {
    info.day != [] || info.weather != [] || info.temperature != []
    || info.winds != [] || info.sunrise != [] || info.sunset != []
  }

  /** Every value of the record is on one line, and every field but the day label is trimmed. */
  predicate WellFormedDayInfo(info: GeneralDayInfo) {
    SingleLine(info.day)
    && IsTrimmed(info.weather) && SingleLine(info.weather)
    && IsTrimmed(info.temperature) && SingleLine(info.temperature)
    && IsTrimmed(info.winds) && SingleLine(info.winds)
    && IsTrimmed(info.sunrise) && SingleLine(info.sunrise)
    && IsTrimmed(info.sunset) && SingleLine(info.sunset)
  }

  /**
   * The record the `forEach` callback pushes for one `<div>` section: none
   * without a `<span><strong>` day label, none when every value is empty.
   */
  function DayInfoOf(section: String): (r: Option<GeneralDayInfo>)
    ensures r.Some? ==> HasValue(r.value)
    ensures FirstMatch(DayLabel, section, 0).None? ==> r.None?
    ensures FirstMatch(DayLabel, section, 0).Some? ==>
              (r.Some? <==> GroupOf(section, FirstMatch(DayLabel, section, 0).value) != []
                            || ExtractField(section, "Weather") != [] || ExtractField(section, "Temperature") != []
                            || ExtractField(section, "Winds") != [] || ExtractField(section, "Sunrise") != []
                            || ExtractField(section, "Sunset") != [])
    ensures r.Some? ==>
              && FirstMatch(DayLabel, section, 0).Some?
              && r.value.day == GroupOf(section, FirstMatch(DayLabel, section, 0).value)
              && r.value.weather == ExtractField(section, "Weather")
              && r.value.temperature == ExtractField(section, "Temperature")
              && r.value.winds == ExtractField(section, "Winds")
              && r.value.sunrise == ExtractField(section, "Sunrise")
              && r.value.sunset == ExtractField(section, "Sunset")
  {
    match FirstMatch(DayLabel, section, 0)
    case None => None
    case Some(m) =>
      var info := GeneralDayInfo(
        GroupOf(section, m),
        ExtractField(section, "Weather"),
        ExtractField(section, "Temperature"),
        ExtractField(section, "Winds"),
        ExtractField(section, "Sunrise"),
        ExtractField(section, "Sunset"));
      if HasValue(info) then Some(info) else None
  }

  /**
   * The day label of a record is the single-line text of the `<strong>`
   * capture, and every other field is trimmed and single-line.
   */
  lemma DayInfoFieldsClean(section: String)
    requires DayInfoOf(section).Some?
    ensures WellFormedDayInfo(DayInfoOf(section).value)
  {
    hide MatchAt, ExtractField;
    var m := FirstMatch(DayLabel, section, 0).value;
    FirstMatchSound(DayLabel, section, 0);
    var info := DayInfoOf(section).value;
    assert info.day == GroupOf(section, m);
    assert SingleLine(info.day);
    assert info.weather == ExtractField(section, "Weather");
    assert info.temperature == ExtractField(section, "Temperature");
    assert info.winds == ExtractField(section, "Winds");
    assert info.sunrise == ExtractField(section, "Sunrise");
    assert info.sunset == ExtractField(section, "Sunset");
  }

  /**
   * The record is read from the leftmost day-label match: any match with no
   * match starting before it gives the day, the record exists iff the day or
   * one of the five fields is non-empty, and without a day-label match there
   * is no record.
   */
  lemma DayInfoIsLeftmostLabel(section: String)
    ensures forall m :: IsMatchOf(DayLabel, section, m) && NoMatchIn(DayLabel, section, 0, m.start) ==>
              var info := GeneralDayInfo(
                GroupOf(section, m),
                ExtractField(section, "Weather"),
                ExtractField(section, "Temperature"),
                ExtractField(section, "Winds"),
                ExtractField(section, "Sunrise"),
                ExtractField(section, "Sunset"));
              DayInfoOf(section) == if HasValue(info) then Some(info) else None
    ensures NoMatchIn(DayLabel, section, 0, |section|) ==> DayInfoOf(section).None?
  {
    forall m | IsMatchOf(DayLabel, section, m) && NoMatchIn(DayLabel, section, 0, m.start)
      ensures FirstMatch(DayLabel, section, 0) == Some(m)
    {
      LeftmostIsFirstMatch(DayLabel, section, 0, m);
    }
    if NoMatchIn(DayLabel, section, 0, |section|) {
      NoMatchIsNoFirstMatch(DayLabel, section, 0);
    }
  }

  /** The character of `lit` at `j` where `lit` starts. */
  lemma StartsWithAtChar(s: String, k: nat, lit: String, j: nat)
    requires j < |lit|
    ensures StartsWithAt(s, k, lit) ==> s[k + j] == lit[j]
  {
    if StartsWithAt(s, k, lit) {
      assert s[k..k + |lit|][j] == s[k + j];
    }
  }

  /** A field that does not occur reads as "". */
  lemma AbsentField(section: String, field: String)
    requires forall k :: 0 <= k < |section| ==> !StartsWithAt(section, k, field)
    ensures ExtractField(section, field) == []
  {
    NoOpenerNoMatch(Field(field), section, 0, |section|);
    NoMatchIsNoFirstMatch(Field(field), section, 0);
  }

  /**
   * Where the field names can start in a text whose only `W` is at `w`, followed
   * by `e`, whose only `S` is at `u`, followed by `un`, and which has no `T`:
   * `Weather` at most at `w`, and none of the other four.
   */
  lemma FieldNamesByLetters(s: String, w: nat, u: nat)
    requires w + 1 < |s| && s[w + 1] == 'e' && u + 3 < |s| && s[u + 3] == 'n'
    requires forall k :: 0 <= k < |s| && k != w ==> s[k] != 'W'
    requires forall k :: 0 <= k < |s| && k != u ==> s[k] != 'S'
    requires forall k :: 0 <= k < |s| ==> s[k] != 'T'
    ensures forall k :: 0 <= k < |s| ==>
              && (StartsWithAt(s, k, "Weather") ==> k == w)
              && !StartsWithAt(s, k, "Temperature") && !StartsWithAt(s, k, "Winds")
              && !StartsWithAt(s, k, "Sunrise") && !StartsWithAt(s, k, "Sunset")
  {
    forall k | 0 <= k < |s|
      ensures && (StartsWithAt(s, k, "Weather") ==> k == w)
              && !StartsWithAt(s, k, "Temperature") && !StartsWithAt(s, k, "Winds")
              && !StartsWithAt(s, k, "Sunrise") && !StartsWithAt(s, k, "Sunset")
    {
      StartsWithAtChar(s, k, "Weather", 0);
      StartsWithAtChar(s, k, "Temperature", 0);
      StartsWithAtChar(s, k, "Winds", 0);
      StartsWithAtChar(s, k, "Winds", 1);
      StartsWithAtChar(s, k, "Sunrise", 0);
      StartsWithAtChar(s, k, "Sunrise", 3);
      StartsWithAtChar(s, k, "Sunset", 0);
      StartsWithAtChar(s, k, "Sunset", 3);
    }
  }

  /** `x`, `W`, `y`, `S`, `z` where `x`, `y` and `z` hold no `W`, `S` or `T`: the only `W` and `S` are those two. */
  lemma LettersOfPieces(x: String, y: String, z: String)
    requires 'W' !in x && 'S' !in x && 'T' !in x
    requires 'W' !in y && 'S' !in y && 'T' !in y
    requires 'W' !in z && 'S' !in z && 'T' !in z
    ensures var s := x + "W" + y + "S" + z;
            var w, u := |x|, |x| + 1 + |y|;
            && (forall k :: 0 <= k < |s| && k != w ==> s[k] != 'W')
            && (forall k :: 0 <= k < |s| && k != u ==> s[k] != 'S')
            && (forall k :: 0 <= k < |s| ==> s[k] != 'T')
  {
    var s := x + "W" + y + "S" + z;
    var w, u := |x|, |x| + 1 + |y|;
    forall k | 0 <= k < |s| ensures (k != w ==> s[k] != 'W') && (k != u ==> s[k] != 'S') && s[k] != 'T' {
      if k < w {
        assert s[k] == x[k];
      } else if w < k < u {
        assert s[k] == y[k - w - 1];
      } else if u < k {
        assert s[k] == z[k - u - 1];
      }
    }
  }

  lemma ExampleSectionPieces()
    ensures "<span><strong>Monday</strong></span>Weather</th><td>Sunny</td>"
            == "<span><strong>Monday</strong></span>" + "Weather" + "</th><td>" + "Sunny" + "</td>"
  {
  }

  lemma ExampleSectionLetters()
    ensures "<span><strong>Monday</strong></span>Weather</th><td>Sunny</td>"
            == "<span><strong>Monday</strong></span>" + "W" + "eather</th><td>" + "S" + "unny</td>"
  {
  }

  lemma ExampleSectionLabel()
    ensures "<span><strong>Monday</strong></span>Weather</th><td>Sunny</td>"[..29]
            == "<span><strong>" + "Monday" + "</strong>"
  {
    var x := "<span><strong>Monday</strong></span>";
    ExampleSectionPieces();
    assert "<span><strong>Monday</strong></span>Weather</th><td>Sunny</td>"[..29] == x[..29];
  }

  lemma ExampleSectionTexts()
    ensures |"<span><strong>Monday</strong></span>"| == 36
    ensures '<' !in "Monday" && SingleLine("Monday") && '<' !in "Sunny" && SingleLine("Sunny")
    ensures IsTrimmed("Sunny")
  {
  }

  lemma ExampleLabelLacksW()
    ensures 'W' !in "<span><strong>Monday</strong></span>"
  {
  }

  lemma ExampleLabelLacksS()
    ensures 'S' !in "<span><strong>Monday</strong></span>"
  {
  }

  lemma ExampleLabelLacksT()
    ensures 'T' !in "<span><strong>Monday</strong></span>"
  {
  }

  lemma ExampleCellLetters()
    ensures 'W' !in "eather</th><td>" && 'S' !in "eather</th><td>" && 'T' !in "eather</th><td>"
    ensures 'W' !in "unny</td>" && 'S' !in "unny</td>" && 'T' !in "unny</td>"
  {
  }

  /** No field name starts in the example section except `Weather`, at 36. */
  lemma ExampleSectionFields()
    ensures var s := "<span><strong>Monday</strong></span>Weather</th><td>Sunny</td>";
            forall k :: 0 <= k < |s| ==>
              && (StartsWithAt(s, k, "Weather") ==> k == 36)
              && !StartsWithAt(s, k, "Temperature") && !StartsWithAt(s, k, "Winds")
              && !StartsWithAt(s, k, "Sunrise") && !StartsWithAt(s, k, "Sunset")
  {
    var x, y, z := "<span><strong>Monday</strong></span>", "eather</th><td>", "unny</td>";
    ExampleSectionLetters();
    ExampleLabelLacksW();
    ExampleLabelLacksS();
    ExampleLabelLacksT();
    ExampleCellLetters();
    LettersOfPieces(x, y, z);
    var s := x + "W" + y + "S" + z;
    assert s[37] == y[0] && s[55] == z[2];
    hide StartsWithAt;
    FieldNamesByLetters(s, 36, 52);
  }

  /**
   * A section with the label `Monday` and one field cell gives that label,
   * the cell's value as the weather, and "" for the four absent fields.
   */
  lemma DayInfoExample()
    ensures DayInfoOf("<span><strong>Monday</strong></span>Weather</th><td>Sunny</td>")
            == Some(GeneralDayInfo("Monday", "Sunny", "", "", "", ""))
  {
    var s := "<span><strong>Monday</strong></span>Weather</th><td>Sunny</td>";
    var x := "<span><strong>Monday</strong></span>";
    ExampleSectionPieces();
    ExampleSectionLabel();
    ExampleSectionTexts();
    ExampleSectionFields();
    hide DayInfoOf, ExtractField, FirstMatch, MatchAt, AllMatches, IsMatchOf, NoMatchIn, Trim, TrimStart, TrimEnd,
      IsTrimmed, SingleLine, StartsWithAt;
    DayLabelOfSpan(s, "Monday");
    FieldMatchOfCell(x, "Weather", "Sunny");
    FieldCellLayout(x, "Weather", "Sunny");
    NoOpenerNoMatch(Field("Weather"), s, 0, 36);
    ExtractFieldIsLeftmostCapture(s, "Weather");
    assert GroupOf(s, Match(36, 62, 52, 57)) == "Sunny";
    TrimOfTrimmed("Sunny");
    AbsentField(s, "Temperature");
    AbsentField(s, "Winds");
    AbsentField(s, "Sunrise");
    AbsentField(s, "Sunset");
  }

  lemma EmptyLabelTexts()
    ensures "<span><strong></strong>"[..23] == "<span><strong>" + [] + "</strong>"
    ensures 'W' !in "<span><strong></strong>" && 'T' !in "<span><strong></strong>"
    ensures 'S' !in "<span><strong></strong>"
  {
  }

  /** A section whose label and fields are all empty gives no record. */
  lemma DayInfoOfEmptyLabel()
    ensures DayInfoOf("<span><strong></strong>") == None
  {
    var s := "<span><strong></strong>";
    EmptyLabelTexts();
    hide DayInfoOf, ExtractField, FirstMatch, MatchAt, AllMatches, IsMatchOf, NoMatchIn, StartsWithAt;
    DayLabelOfSpan(s, []);
    forall k | 0 <= k < |s|
      ensures !StartsWithAt(s, k, "Weather") && !StartsWithAt(s, k, "Temperature") && !StartsWithAt(s, k, "Winds")
      ensures !StartsWithAt(s, k, "Sunrise") && !StartsWithAt(s, k, "Sunset")
    {
      assert s[k] in s;
      StartsWithAtChar(s, k, "Weather", 0);
      StartsWithAtChar(s, k, "Temperature", 0);
      StartsWithAtChar(s, k, "Winds", 0);
      StartsWithAtChar(s, k, "Sunrise", 0);
      StartsWithAtChar(s, k, "Sunset", 0);
    }
    AbsentField(s, "Weather");
    AbsentField(s, "Temperature");
    AbsentField(s, "Winds");
    AbsentField(s, "Sunrise");
    AbsentField(s, "Sunset");
  }

  /** The record, if any, of each section, indexed by section. */
  function SectionRecords(sections: seq<String>): (records: seq<Option<GeneralDayInfo>>)
    ensures |records| == |sections|
    ensures forall k :: 0 <= k < |sections| ==> records[k] == DayInfoOf(sections[k])
  {
    seq(|sections|, k requires 0 <= k < |sections| => DayInfoOf(sections[k]))
  }

  /** The records `parseGeneralDayInfo` pushes for the sections, in section order. */
  function CollectDayInfo(sections: seq<String>): (r: seq<GeneralDayInfo>)
    ensures |r| <= |sections|
  {
    Present(SectionRecords(sections))
  }

  /**
   * Every record is the one some section gives, in section order, so each
   * holds a value and its fields are clean; a section gives a record iff
   * `DayInfoOf` yields one for it.
   */
  lemma DayInfoMatchesSections(sections: seq<String>)
    ensures var r := CollectDayInfo(sections);
            var ks := SomeIndices(SectionRecords(sections));
            |ks| == |r|
            && (forall j :: 0 <= j < |r| ==> ks[j] < |sections| && DayInfoOf(sections[ks[j]]) == Some(r[j]))
            && (forall k :: 0 <= k < |sections| && DayInfoOf(sections[k]).Some? ==> k in ks)
    ensures forall j :: 0 <= j < |CollectDayInfo(sections)| ==>
              HasValue(CollectDayInfo(sections)[j]) && WellFormedDayInfo(CollectDayInfo(sections)[j])
  {
    var records := SectionRecords(sections);
    PresentAtSomeIndices(records);
    var r := CollectDayInfo(sections);
    var ks := SomeIndices(records);
    forall j | 0 <= j < |r| ensures HasValue(r[j]) && WellFormedDayInfo(r[j]) {
      assert DayInfoOf(sections[ks[j]]) == Some(r[j]);
      DayInfoFieldsClean(sections[ks[j]]);
    }
  }

  /** The `forEach` callback for one section: the record it pushes, if any. */
  method ParseSection(section: String) returns (info: Option<GeneralDayInfo>)
    ensures info == DayInfoOf(section)
  {
    var dayMatch := FirstMatch(DayLabel, section, 0);
    if dayMatch.None? {
      return None;
    }
    FirstMatchSound(DayLabel, section, 0);
    var record := GeneralDayInfo(
      GroupOf(section, dayMatch.value),
      ExtractField(section, "Weather"),
      ExtractField(section, "Temperature"),
      ExtractField(section, "Winds"),
      ExtractField(section, "Sunrise"),
      ExtractField(section, "Sunset"));
    info := if HasValue(record) then Some(record) else None;
  }

  /** `parseGeneralDayInfo`: one record per `<div>…</div>` section that yields one. */
  method ParseGeneralDayInfo(description: String) returns (generalInfo: seq<GeneralDayInfo>)
    ensures generalInfo == CollectDayInfo(MatchAll(Section, description))
  {
    generalInfo := [];
    var sections := MatchAll(Section, description);
    ghost var records := SectionRecords(sections);
    var i := 0;
    while i < |sections|
      invariant 0 <= i <= |sections|
      invariant generalInfo == Present(records[..i])
    {
      var info := ParseSection(sections[i]);
      PresentOfPrefix(records, i);
      assert records[i] == info;
      if info.Some? {
        generalInfo := generalInfo + [info.value];
      }
      i := i + 1;
    }
    assert records[..i] == records;
  }

  // ---------------------------------------------------------------------------
  // The report

  /**
   * What every parsed report satisfies: clean discussion paragraphs, wave
   * heights in strictly increasing row order, day records with a value.
   */
  predicate WellFormedReport(report: SurfReport) {
    (forall k :: 0 <= k < |report.discussion| ==>
       report.discussion[k] != [] && IsTrimmed(report.discussion[k]) && Tagless(report.discussion[k]))
    && StrictlyIncreasingOrders(report.waveHeights)
    && (forall j :: 0 <= j < |report.generalDayInfo| ==> HasValue(report.generalDayInfo[j]))
  }

  /**
   * `parseNoaaReport`: fails with the not-found error when no item has the
   * island's forecast title; otherwise, since the discussion lookup is not
   * guarded, fails when there is no "Discussion" item; otherwise assembles the
   * report from the first item with each title.
   */
  method ParseNoaaReport(channel: Channel, island: String) returns (r: Result<SurfReport, ParseError>)
    ensures FindItem(channel.items, ForecastTitle(island)).None? ==>
              r == Failure(NotFound(NotFoundMessage(island)))
    ensures FindItem(channel.items, ForecastTitle(island)).Some? && FindItem(channel.items, DiscussionTitle).None? ==>
              r == Failure(DiscussionMissing)
    ensures r.Success? <==>
              FindItem(channel.items, ForecastTitle(island)).Some? && FindItem(channel.items, DiscussionTitle).Some?
    ensures r.Success? ==>
              var forecast := FindItem(channel.items, ForecastTitle(island)).value;
              var discussion := FindItem(channel.items, DiscussionTitle).value;
              r.value == SurfReport(
                channel.lastBuildDate,
                ParseDiscussion(discussion.description),
                CollectWaveHeights(DataRows(forecast.description)),
                CollectDayInfo(MatchAll(Section, forecast.description)))
    ensures r.Success? ==> WellFormedReport(r.value)
  {
    var forecastItem := FindItem(channel.items, ForecastTitle(island));
    if forecastItem.None? {
      return Failure(NotFound(NotFoundMessage(island)));
    }
    var discussionItem := FindItem(channel.items, DiscussionTitle);
    var waveHeights := ParseWaveHeights(forecastItem.value.description);
    var generalDayInfo := ParseGeneralDayInfo(forecastItem.value.description);
    if discussionItem.None? {
      return Failure(DiscussionMissing);
    }
    var discussion := ParseDiscussion(discussionItem.value.description);
    WaveHeightsMatchRows(DataRows(forecastItem.value.description));
    DayInfoMatchesSections(MatchAll(Section, forecastItem.value.description));
    r := Success(SurfReport(channel.lastBuildDate, discussion, waveHeights, generalDayInfo));
  }
}
