/**
 * The log-line pattern `\s+1\s+([-0-9.]+)\s+kcal/mol` and the leftmost
 * search that `re.search` performs with it on one line.
 *
 * `Shape` states the pattern directly: some positions split the line into
 * whitespace, the rank `1`, whitespace, the captured token, whitespace and
 * `kcal/mol`. `MatchAt` computes the match from a start position by
 * following maximal runs, which is what the backtracking engine ends with
 * because whitespace, `1`, the class `[-0-9.]` and `k` are pairwise disjoint
 * where they meet. `MatchAtIsShape` proves the two agree.
 */
module ScorePattern {
  import opened Wrappers
  import opened Text
  import opened Numbers

  const Unit: string := "kcal/mol"

  /** The two character classes the pattern repeats: `\s` and `[-0-9.]`. */
  datatype CharClass = Space | Numeral

  predicate InClass(cls: CharClass, c: char) {
    match cls
    case Space => IsSpace(c)
    case Numeral => IsNumeralChar(c)
  }

  /** The end of the run of characters of class `cls` that begins at `i`. */
  function RunEnd(line: string, i: nat, cls: CharClass): (e: nat)
    requires i <= |line|
    ensures i <= e <= |line|
    ensures forall k :: i <= k < e ==> InClass(cls, line[k])
    ensures e < |line| ==> !InClass(cls, line[e])
    decreases |line| - i
  {
    if i == |line| || !InClass(cls, line[i]) then i else RunEnd(line, i + 1, cls)
  }

  /** A run is determined by where it starts. */
  lemma RunEndIs(line: string, i: nat, cls: CharClass, e: nat)
    requires i <= e <= |line|
    requires forall k :: i <= k < e ==> InClass(cls, line[k])
    requires e < |line| ==> !InClass(cls, line[e])
    ensures RunEnd(line, i, cls) == e
  {
  }

  /**
   * The pattern matches `line` from position `i` with the rank `1` at `a`,
   * the captured token at `b..c` and `kcal/mol` at `d`.
   */
  ghost predicate Shape(line: string, i: nat, a: nat, b: nat, c: nat, d: nat) {
    && i < a && a + 1 < b && b < c && c < d && d + |Unit| <= |line|
    && (forall k :: i <= k < a ==> IsSpace(line[k]))
    && line[a] == '1'
    && (forall k :: a < k < b ==> IsSpace(line[k]))
    && (forall k :: b <= k < c ==> IsNumeralChar(line[k]))
    && (forall k :: c <= k < d ==> IsSpace(line[k]))
    && line[d..d + |Unit|] == Unit
  }

  /** The pattern matches from `i` and captures `tok`. */
  ghost predicate MatchesAt(line: string, i: nat, tok: string) {
    exists a: nat, b: nat, c: nat, d: nat :: Shape(line, i, a, b, c, d) && tok == line[b..c]
  }

  ghost predicate MatchesSomewhereAt(line: string, i: nat) {
    exists tok :: MatchesAt(line, i, tok)
  }

  /** One item of the pattern: a run of one or more characters of a class, or a fixed text. */
  datatype Item = Plus(cls: CharClass) | Exactly(text: string)

  /** `\s+1\s+([-0-9.]+)\s+kcal/mol` item by item; item 3 is the captured group. */
  const Pattern: seq<Item> := [Plus(Space), Exactly("1"), Plus(Space), Plus(Numeral), Plus(Space), Exactly(Unit)]

  /** `line[s..e]` is one occurrence of `item`. */
  predicate Spans(line: string, s: nat, e: nat, item: Item) {
    && s <= e <= |line|
    && match item
       case Plus(cls) => s < e && forall k :: s <= k < e ==> InClass(cls, line[k])
       case Exactly(w) => line[s..e] == w
  }

  /** Where `item` ends when it starts at `i`, taking the whole run for a class. */
  function ItemEnd(line: string, i: nat, item: Item): (e: Option<nat>)
    requires i <= |line|
    ensures e.Some? ==> i <= e.value <= |line|
  {
    match item
    case Plus(cls) =>
      var j := RunEnd(line, i, cls);
      if j == i then None else Some(j)
    case Exactly(w) =>
      if i + |w| <= |line| && line[i..i + |w|] == w then Some(i + |w|) else None
  }

  /** What `ItemEnd` finds is an occurrence of the item. */
  lemma ItemEndSpans(line: string, i: nat, item: Item)
    requires i <= |line| && ItemEnd(line, i, item).Some?
    ensures Spans(line, i, ItemEnd(line, i, item).value, item)
  {
  }

  /** Matches `items` one after another from `i`, each taking the whole run; the end of each item. */
  function MatchItems(line: string, i: nat, items: seq<Item>): (ends: Option<seq<nat>>)
    requires i <= |line|
    ensures ends.Some? ==> |ends.value| == |items|
    decreases |items|
  {
    if items == [] then Some([])
    else
      match ItemEnd(line, i, items[0])
      case None => None
      case Some(j) =>
        match MatchItems(line, j, items[1..])
        case None => None
        case Some(rest) => Some([j] + rest)
  }

  /** Each item of a match spans the text from the end of the item before it to its own end. */
  lemma {:induction false} MatchItemsSpans(line: string, i: nat, items: seq<Item>)
    requires i <= |line| && MatchItems(line, i, items).Some?
    ensures var ends := MatchItems(line, i, items).value;
      forall k :: 0 <= k < |items| ==> Spans(line, if k == 0 then i else ends[k - 1], ends[k], items[k])
    decreases |items|
  {
    if items != [] {
      var j := ItemEnd(line, i, items[0]).value;
      ItemEndSpans(line, i, items[0]);
      MatchItemsSpans(line, j, items[1..]);
      var rest := MatchItems(line, j, items[1..]).value;
      var ends := [j] + rest;
      assert MatchItems(line, i, items).value == ends;
      forall k | 1 <= k < |items|
        ensures Spans(line, ends[k - 1], ends[k], items[k])
      {
        assert ends[k] == rest[k - 1] && items[k] == items[1..][k - 1];
        assert ends[k - 1] == if k - 1 == 0 then j else rest[k - 2];
      }
    }
  }

  /** The match anchored at `i`, if any, as the captured token. */
  function MatchAt(line: string, i: nat): (m: Option<string>)
    requires i <= |line|
    ensures m.Some? ==> |m.value| > 0 && AllNumeralChars(m.value)
  {
    match MatchItems(line, i, Pattern)
    case None => None
    case Some(ends) =>
      MatchItemsSpans(line, i, Pattern);
      assert Spans(line, ends[2], ends[3], Pattern[3]);
      Some(line[ends[2]..ends[3]])
  }

  lemma MatchAtHasShape(line: string, i: nat)
    requires i <= |line| && MatchAt(line, i).Some?
    ensures MatchesAt(line, i, MatchAt(line, i).value)
  {
    var ends := MatchItems(line, i, Pattern).value;
    MatchItemsSpans(line, i, Pattern);
    assert Spans(line, i, ends[0], Pattern[0]);
    assert Spans(line, ends[0], ends[1], Pattern[1]);
    assert Spans(line, ends[1], ends[2], Pattern[2]);
    assert Spans(line, ends[2], ends[3], Pattern[3]);
    assert Spans(line, ends[3], ends[4], Pattern[4]);
    assert Spans(line, ends[4], ends[5], Pattern[5]);
    var a, b, c, d := ends[0], ends[2], ends[3], ends[4];
    assert line[a..ends[1]] == "1";
    assert Shape(line, i, a, b, c, d);
  }

  /** A whole run of `cls` from `i` to `j`, then the rest of the items. */
  lemma PlusStep(line: string, i: nat, j: nat, cls: CharClass, rest: seq<Item>, ends: seq<nat>)
    requires i < j <= |line|
    requires forall k :: i <= k < j ==> InClass(cls, line[k])
    requires j < |line| ==> !InClass(cls, line[j])
    requires MatchItems(line, j, rest) == Some(ends)
    ensures MatchItems(line, i, [Plus(cls)] + rest) == Some([j] + ends)
  {
    RunEndIs(line, i, cls, j);
    assert ([Plus(cls)] + rest)[1..] == rest;
  }

  /** The text `w` at `i`, then the rest of the items. */
  lemma ExactlyStep(line: string, i: nat, w: string, rest: seq<Item>, ends: seq<nat>)
    requires i + |w| <= |line| && line[i..i + |w|] == w
    requires MatchItems(line, i + |w|, rest) == Some(ends)
    ensures MatchItems(line, i, [Exactly(w)] + rest) == Some([i + |w|] + ends)
  {
    assert ([Exactly(w)] + rest)[1..] == rest;
  }

  /** The group, the whitespace after it and `kcal/mol`, laid out as in `Shape`. */
  lemma GroupOnward(line: string, b: nat, c: nat, d: nat)
    requires b < c < d && d + |Unit| <= |line|
    requires forall k :: b <= k < c ==> IsNumeralChar(line[k])
    requires forall k :: c <= k < d ==> IsSpace(line[k])
    requires line[d..d + |Unit|] == Unit
    ensures MatchItems(line, b, Pattern[3..]) == Some([c] + ([d] + [d + |Unit|]))
  {
    var e := d + |Unit|;
    assert MatchItems(line, e, []) == Some([]);
    ExactlyStep(line, d, Unit, [], []);
    assert [Exactly(Unit)] + [] == [Exactly(Unit)] && [e] + [] == [e];
    assert line[d] == Unit[0];
    PlusStep(line, c, d, Space, [Exactly(Unit)], [e]);
    PlusStep(line, b, c, Numeral, [Plus(Space)] + [Exactly(Unit)], [d] + [e]);
    assert [Plus(Numeral)] + ([Plus(Space)] + [Exactly(Unit)]) == Pattern[3..];
  }

  /** The whitespace after the rank and everything after it, laid out as in `Shape`. */
  lemma AfterRank(line: string, s: nat, b: nat, c: nat, d: nat)
    requires s < b < c < d && d + |Unit| <= |line|
    requires forall k :: s <= k < b ==> IsSpace(line[k])
    requires forall k :: b <= k < c ==> IsNumeralChar(line[k])
    requires forall k :: c <= k < d ==> IsSpace(line[k])
    requires line[d..d + |Unit|] == Unit
    ensures MatchItems(line, s, Pattern[2..]) == Some([b] + ([c] + ([d] + [d + |Unit|])))
  {
    GroupOnward(line, b, c, d);
    PlusStep(line, s, b, Space, Pattern[3..], [c] + ([d] + [d + |Unit|]));
    assert [Plus(Space)] + Pattern[3..] == Pattern[2..];
  }

  /** The rank and everything after it, laid out as in `Shape`. */
  lemma RankOnward(line: string, a: nat, b: nat, c: nat, d: nat)
    requires a + 1 < b < c < d && d + |Unit| <= |line|
    requires line[a] == '1'
    requires forall k :: a < k < b ==> IsSpace(line[k])
    requires forall k :: b <= k < c ==> IsNumeralChar(line[k])
    requires forall k :: c <= k < d ==> IsSpace(line[k])
    requires line[d..d + |Unit|] == Unit
    ensures MatchItems(line, a, Pattern[1..]) == Some([a + 1] + ([b] + ([c] + ([d] + [d + |Unit|]))))
  {
    AfterRank(line, a + 1, b, c, d);
    assert line[a..a + 1] == "1";
    ExactlyStep(line, a, "1", Pattern[2..], [b] + ([c] + ([d] + [d + |Unit|])));
    assert [Exactly("1")] + Pattern[2..] == Pattern[1..];
  }

  lemma ShapeIsMatchAt(line: string, i: nat, a: nat, b: nat, c: nat, d: nat)
    requires i <= |line| && Shape(line, i, a, b, c, d)
    ensures MatchAt(line, i) == Some(line[b..c])
  {
    var ends1 := [a + 1] + ([b] + ([c] + ([d] + [d + |Unit|])));
    RankOnward(line, a, b, c, d);
    PlusStep(line, i, a, Space, Pattern[1..], ends1);
    assert [Plus(Space)] + Pattern[1..] == Pattern;
    var ends := [a] + ends1;
    assert ends[2] == b && ends[3] == c;
  }

  /** The computed match is exactly the one the pattern describes. */
  lemma MatchAtIsShape(line: string, i: nat, tok: string)
    requires i <= |line|
    ensures MatchAt(line, i) == Some(tok) <==> MatchesAt(line, i, tok)
  {
    if MatchAt(line, i) == Some(tok) {
      MatchAtHasShape(line, i);
    }
    if MatchesAt(line, i, tok) {
      var a: nat, b: nat, c: nat, d: nat :| Shape(line, i, a, b, c, d) && tok == line[b..c];
      ShapeIsMatchAt(line, i, a, b, c, d);
    }
  }

  lemma NoMatchAtEnd(line: string, i: nat, tok: string)
    requires i >= |line|
    ensures !MatchesAt(line, i, tok)
  {
  }

  /** The leftmost start position at or after `s` from which the pattern matches, or `|line|` when there is none. */
  function MatchStart(line: string, s: nat): (i: nat)
    requires s <= |line|
    ensures s <= i <= |line|
    ensures forall j :: s <= j < i ==> MatchAt(line, j).None?
    ensures i == |line| || MatchAt(line, i).Some?
    decreases |line| - s
  {
    if s == |line| || MatchAt(line, s).Some? then s else MatchStart(line, s + 1)
  }

  /** `re.search`: the match from the leftmost start position where there is one. */
  function Search(line: string): (m: Option<string>)
    ensures m.Some? ==> |m.value| > 0 && AllNumeralChars(m.value)
  {
    MatchAt(line, MatchStart(line, 0))
  }

  lemma NoMatchAtStart(line: string, i: nat)
    requires i <= |line| && MatchAt(line, i).None?
    ensures !MatchesSomewhereAt(line, i)
  {
    forall tok ensures !MatchesAt(line, i, tok) {
      MatchAtIsShape(line, i, tok);
    }
  }

  /** The pattern matches from `i` with capture `tok`, and from no earlier position. */
  ghost predicate LeftmostMatchAt(line: string, i: nat, tok: string) {
    MatchesAt(line, i, tok) && forall j: nat :: j < i ==> !MatchesSomewhereAt(line, j)
  }

  /** The pattern matches from no position before the one `Search` starts at. */
  lemma {:induction false} NothingBeforeStart(line: string)
    ensures forall j: nat :: j < MatchStart(line, 0) ==> !MatchesSomewhereAt(line, j)
  {
    forall j: nat | j < MatchStart(line, 0) ensures !MatchesSomewhereAt(line, j) {
      NoMatchAtStart(line, j);
    }
  }

  /** A first match found by `Search` is a first match of the pattern. */
  lemma SearchFindsFirst(line: string, tok: string)
    requires Search(line) == Some(tok)
    ensures LeftmostMatchAt(line, MatchStart(line, 0), tok)
  {
    MatchAtIsShape(line, MatchStart(line, 0), tok);
    NothingBeforeStart(line);
  }

  /** A first match of the pattern is where `Search` starts, with the same capture. */
  lemma FirstIsFound(line: string, i: nat, tok: string)
    requires LeftmostMatchAt(line, i, tok)
    ensures Search(line) == Some(tok)
  {
    var f := MatchStart(line, 0);
    assert MatchesSomewhereAt(line, i);
    if i < |line| {
      MatchAtIsShape(line, i, tok);
    } else {
      NoMatchAtEnd(line, i, tok);
    }
    if f < i {
      MatchAtHasShape(line, f);
      assert MatchesSomewhereAt(line, f);
    }
    MatchAtIsShape(line, f, tok);
  }

  /**
   * `re.search` finds `tok` exactly when the pattern matches from some
   * position with that capture and from no earlier position.
   */
  lemma SearchIsLeftmost(line: string, tok: string)
    ensures Search(line) == Some(tok) <==> exists i: nat :: LeftmostMatchAt(line, i, tok)
  {
    if Search(line) == Some(tok) {
      SearchFindsFirst(line, tok);
    }
    if exists i: nat :: LeftmostMatchAt(line, i, tok) {
      var i: nat :| LeftmostMatchAt(line, i, tok);
      FirstIsFound(line, i, tok);
    }
  }

  /** `re.search` finds nothing exactly when the pattern matches from no position. */
  lemma SearchFindsNothing(line: string)
    ensures Search(line) == None <==> forall i: nat, tok :: !MatchesAt(line, i, tok)
  {
    var f := MatchStart(line, 0);
    if Search(line).Some? {
      MatchAtHasShape(line, f);
    } else {
      forall i: nat, tok ensures !MatchesAt(line, i, tok) {
        if i < |line| {
          MatchAtIsShape(line, i, tok);
        } else {
          NoMatchAtEnd(line, i, tok);
        }
      }
    }
  }

  /** A line the pattern matches from its first character: `re.search` finds that match. */
  lemma MatchFromStart(line: string, a: nat, b: nat, c: nat, d: nat)
    requires Shape(line, 0, a, b, c, d)
    ensures Search(line) == Some(line[b..c])
  {
    ShapeIsMatchAt(line, 0, a, b, c, d);
  }

  lemma RankOneLayout()
    ensures var line := "   1   -7.20  kcal/mol"; Shape(line, 0, 3, 7, 12, 14) && line[7..12] == "-7.20"
  {
    var line := "   1   -7.20  kcal/mol";
    assert line[14..22] == Unit;
  }

  /** The rank-1 line of a typical log: the capture is the affinity token. */
  lemma RankOneLine()
    ensures Search("   1   -7.20  kcal/mol") == Some("-7.20")
  {
    RankOneLayout();
    MatchFromStart("   1   -7.20  kcal/mol", 3, 7, 12, 14);
  }

  lemma MalformedRankOneLayout()
    ensures var line := "   1   --5  kcal/mol"; Shape(line, 0, 3, 7, 10, 12) && line[7..10] == "--5"
  {
  }

  /** The pattern captures a token `float` will refuse just as readily. */
  lemma MalformedRankOneLine()
    ensures Search("   1   --5  kcal/mol") == Some("--5")
  {
    MalformedRankOneLayout();
    MatchFromStart("   1   --5  kcal/mol", 3, 7, 10, 12);
  }

  /** A rank `1` with whitespace directly before and directly after it, at `a`. */
  ghost predicate SpacedRankAt(line: string, a: nat) {
    0 < a && a + 1 < |line| && IsSpace(line[a - 1]) && line[a] == '1' && IsSpace(line[a + 1])
  }

  /** Every match has its rank `1` standing alone between whitespace. */
  lemma MatchNeedsSpacedRank(line: string, i: nat, tok: string)
    ensures MatchesAt(line, i, tok) ==> exists a: nat :: SpacedRankAt(line, a)
  {
    if MatchesAt(line, i, tok) {
      var a: nat, b: nat, c: nat, d: nat :| Shape(line, i, a, b, c, d) && tok == line[b..c];
      assert SpacedRankAt(line, a);
    }
  }

  /** A line without a whitespace-delimited `1` has no match. */
  lemma {:induction false} NoSpacedRankNoMatch(line: string)
    requires forall a: nat :: !SpacedRankAt(line, a)
    ensures Search(line) == None
  {
    forall i: nat, tok ensures !MatchesAt(line, i, tok) {
      MatchNeedsSpacedRank(line, i, tok);
    }
    SearchFindsNothing(line);
  }

  /** Without whitespace before the rank there is no match. */
  lemma RankAtLineStart()
    ensures Search("1 -7.2 kcal/mol") == None
  {
    NoSpacedRankNoMatch("1 -7.2 kcal/mol");
  }

  /** A rank of `11` is not the rank `1`. */
  lemma RankEleven()
    ensures Search("  11 -7.2 kcal/mol") == None
  {
    NoSpacedRankNoMatch("  11 -7.2 kcal/mol");
  }
}
