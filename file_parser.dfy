/**
 * FileParser: MenuFileParser (RestaurantMenu/file_parser.cpp).
 *
 * A menu line holds a quoted name and, after it, exactly two tokens: a
 * price and a preparation time, in either order. The file itself is a
 * sequence of lines here; opening and reading it is not modelled.
 */
module FileParser {
  import opened Wrappers
  import opened StringUtils
  import opened Models
  import opened Parsers
  import opened Storage

  // ---------------------------------------------------------------------
  // The quoted name
  // ---------------------------------------------------------------------

  /** The name between the first two double quotes, and the line with the quoted part replaced by one space. */
  datatype NameSplit = NameSplit(name: string, remaining: string)

  /** pre "name" post. */
  function QuotedForm(pre: string, name: string, post: string): string {
    pre + "\"" + name + "\"" + post
  }

  /** extractQuotedName. */
  function ExtractQuotedName(line: string): (r: Option<NameSplit>)
    ensures r.Some? ==> r.value.name != [] && '"' !in r.value.name
    ensures r.Some? ==> |r.value.remaining| == |line| - |r.value.name| - 1
  {
    var startQuote := IndexOf(line, '"', 0);
    if startQuote == |line| then None
    else
      var endQuote := IndexOf(line, '"', startQuote + 1);
      if endQuote == |line| then None
      else
        var name := line[startQuote + 1..endQuote];
        if name == [] then None
        else Some(NameSplit(name, line[..startQuote] + " " + line[endQuote + 1..]))
  }

  lemma IndexOfAbsentFrom(s: string, c: char, from: nat)
    requires forall i :: from <= i < |s| ==> s[i] != c
    ensures IndexOf(s, c, from) == |s|
    decreases |s| - from
  {
    if from < |s| {
      IndexOfAbsentFrom(s, c, from + 1);
    }
  }

  lemma IndexOfFirstFrom(s: string, c: char, from: nat, k: nat)
    requires from <= k < |s| && s[k] == c && forall i :: from <= i < k ==> s[i] != c
    ensures IndexOf(s, c, from) == k
  {
  }

  /** The inverse of extractQuotedName: a quote-free name between the first two quotes is found again. */
  lemma ExtractQuotedInverse(pre: string, name: string, post: string)
    requires '"' !in pre && '"' !in name && name != []
    ensures ExtractQuotedName(QuotedForm(pre, name, post)) == Some(NameSplit(name, pre + " " + post))
  {
    var line := QuotedForm(pre, name, post);
    var e := |pre| + 1 + |name|;
    assert forall i :: 0 <= i < |pre| ==> line[i] == pre[i];
    assert forall i :: |pre| < i < e ==> line[i] == name[i - |pre| - 1];
    IndexOfFirstFrom(line, '"', 0, |pre|);
    IndexOfFirstFrom(line, '"', |pre| + 1, e);
    assert line[|pre| + 1..e] == name;
    assert line[..|pre|] == pre && line[e + 1..] == post;
  }

  /** Whatever extractQuotedName accepts has that form: text without quotes, the quoted name, the rest. */
  lemma ExtractQuotedSound(line: string)
    requires ExtractQuotedName(line).Some?
    ensures var sp := ExtractQuotedName(line).value;
            exists pre, post :: QuotedForm(pre, sp.name, post) == line && '"' !in pre && sp.remaining == pre + " " + post
  {
    var sp := ExtractQuotedName(line).value;
    var s := IndexOf(line, '"', 0);
    var e := IndexOf(line, '"', s + 1);
    var pre, post := line[..s], line[e + 1..];
    assert QuotedForm(pre, sp.name, post) == line;
  }

  /** A line without a quote, with a single quote, or with an empty name between the first two, has no name. */
  lemma ExtractQuotedRejects(line: string, pre: string, post: string)
    ensures '"' !in line ==> ExtractQuotedName(line) == None
    ensures line == pre + "\"" + post && '"' !in pre && '"' !in post ==> ExtractQuotedName(line) == None
    ensures line == pre + "\"\"" + post && '"' !in pre ==> ExtractQuotedName(line) == None
  {
    if '"' !in line {
      IndexOfAbsentFrom(line, '"', 0);
    }
    if line == pre + "\"" + post && '"' !in pre && '"' !in post {
      assert forall i :: 0 <= i < |pre| ==> line[i] == pre[i];
      IndexOfFirstFrom(line, '"', 0, |pre|);
      assert forall i :: |pre| < i < |line| ==> line[i] == post[i - |pre| - 1];
      IndexOfAbsentFrom(line, '"', |pre| + 1);
    }
    if line == pre + "\"\"" + post && '"' !in pre {
      assert forall i :: 0 <= i < |pre| ==> line[i] == pre[i];
      IndexOfFirstFrom(line, '"', 0, |pre|);
      IndexOfFirstFrom(line, '"', |pre| + 1, |pre| + 1);
    }
  }

  // ---------------------------------------------------------------------
  // A dish line
  // ---------------------------------------------------------------------

  /** The dish two tokens describe: one price and one time, stored with the time's hours and minutes. */
  function DishFrom(name: string, tokens: seq<string>): Option<Dish> {
    if |tokens| != 2 then None
    else
      match (FirstPrice(tokens), FirstTime(tokens))
      case (Some(p), Some(t)) => Some(NewDish(name, p, t.hour, t.minute, 0, 0))
      case _ => None
  }

  /** parseDishLine: the dish a line adds to the storage, or None when the line is invalid. */
  function LineDish(line: string): Option<Dish> {
    var t := Trimmed(line);
    if t == [] then None
    else
      match ExtractQuotedName(t)
      case None => None
      case Some(sp) => DishFrom(sp.name, Tokens(sp.remaining))
  }

  /** Words, each after one space. */
  function SpacedWords(ws: seq<string>): string {
    if ws == [] then "" else " " + ws[0] + SpacedWords(ws[1..])
  }

  predicate AllWords(ws: seq<string>) {
    forall i :: 0 <= i < |ws| ==> IsWord(ws[i], IsSafeSpace)
  }

  /** The words come back as the tokens. */
  lemma {:induction false} TokensOfSpacedWords(ws: seq<string>)
    requires AllWords(ws)
    ensures Tokens(SpacedWords(ws)) == ws
  {
    if ws != [] {
      var rest := SpacedWords(ws[1..]);
      TokensOfSpacedWords(ws[1..]);
      assert SpacedWords(ws) == [' '] + (ws[0] + rest);
      SplitSkipsSeparator(' ', ws[0] + rest, IsSafeSpace);
      WordThenSeparator(ws[0], rest, IsSafeSpace);
    }
  }

  /** The spaced words end with the last word's last character. */
  lemma {:induction false} SpacedWordsEnd(ws: seq<string>)
    requires AllWords(ws) && ws != []
    ensures SpacedWords(ws) != [] && !IsSafeSpace(SpacedWords(ws)[|SpacedWords(ws)| - 1])
  {
    var s := SpacedWords(ws);
    var rest := SpacedWords(ws[1..]);
    if |ws| > 1 {
      SpacedWordsEnd(ws[1..]);
      assert s[|s| - 1] == rest[|rest| - 1];
    } else {
      assert rest == [];
      assert s[|s| - 1] == ws[0][|ws[0]| - 1];
    }
  }

  /** A canonical menu line: the quoted name, then the tokens, one space before each. */
  function MenuLine(name: string, ws: seq<string>): string {
    QuotedForm("", name, SpacedWords(ws))
  }

  /** A canonical line yields exactly what its tokens describe. */
  lemma MenuLineDish(name: string, ws: seq<string>)
    requires name != [] && '"' !in name && AllWords(ws)
    ensures LineDish(MenuLine(name, ws)) == DishFrom(name, ws)
  {
    var line := MenuLine(name, ws);
    DropLeadingNone(line);
    if ws != [] {
      SpacedWordsEnd(ws);
      assert line[|line| - 1] == SpacedWords(ws)[|SpacedWords(ws)| - 1];
    }
    DropTrailingNone(line);
    ExtractQuotedInverse("", name, SpacedWords(ws));
    assert "" + " " + SpacedWords(ws) == [' '] + SpacedWords(ws);
    SplitSkipsSeparator(' ', SpacedWords(ws), IsSafeSpace);
    TokensOfSpacedWords(ws);
  }

  /**
   * Price and time may come in either order; the dish is the same and
   * carries the parsed price and the parsed time's hours and minutes.
   */
  lemma DishFromEitherOrder(name: string, time: string, price: string)
    requires ParseTime(time).Some? && ParseNumber(price).Some?
    ensures var t := ParseTime(time).value;
            && DishFrom(name, [price, time]) == DishFrom(name, [time, price])
            && DishFrom(name, [price, time]) == Some(NewDish(name, ParseNumber(price).value, t.hour, t.minute, 0, 0))
  {
    CriteriaOrderIndependent(time, price);
  }

  /** Two prices or two times make no dish. */
  lemma DishFromNeedsBoth(name: string, a: string, b: string)
    ensures ParseTime(a).Some? && ParseTime(b).Some? ==> DishFrom(name, [a, b]) == None
    ensures ParseNumber(a).Some? && ParseNumber(b).Some? ==> DishFrom(name, [a, b]) == None
  {
    TimeAndNumberDisjoint(a);
    TimeAndNumberDisjoint(b);
    assert [a, b][1..] == [b];
    assert [b][1..] == [];
    if ParseTime(a).Some? && ParseTime(b).Some? {
      assert FirstPrice([b]) == FirstPrice([]);
      assert FirstPrice([a, b]) == None;
    }
    if ParseNumber(a).Some? && ParseNumber(b).Some? {
      assert FirstTime([b]) == FirstTime([]);
      assert FirstTime([a, b]) == None;
    }
  }
  /** A two-word line makes a dish only when one word is a time and the other a number. */
  lemma DishFromOnlyIf(name: string, a: string, b: string)
    ensures DishFrom(name, [a, b]).Some? ==>
      (ParseTime(a).Some? && ParseNumber(b).Some?) || (ParseNumber(a).Some? && ParseTime(b).Some?)
  {
    TimeAndNumberDisjoint(a);
    TimeAndNumberDisjoint(b);
    assert [a, b][1..] == [b];
    assert [b][1..] == [];
    assert FirstTime([a, b]) == (if ParseTime(a).Some? then ParseTime(a) else FirstTime([b]));
    assert FirstPrice([a, b]) == (if ParseNumber(a).Some? then ParseNumber(a) else FirstPrice([b]));
    assert FirstTime([b]) == (if ParseTime(b).Some? then ParseTime(b) else None);
    assert FirstPrice([b]) == (if ParseNumber(b).Some? then ParseNumber(b) else None);
  }

  /** Both directions: a two-word line makes a dish exactly when one word is a time and the other a number. */
  lemma DishFromIff(name: string, a: string, b: string)
    ensures DishFrom(name, [a, b]).Some? <==>
      (ParseTime(a).Some? && ParseNumber(b).Some?) || (ParseNumber(a).Some? && ParseTime(b).Some?)
  {
    DishFromOnlyIf(name, a, b);
    if ParseTime(a).Some? && ParseNumber(b).Some? {
      DishFromEitherOrder(name, a, b);
    } else if ParseNumber(a).Some? && ParseTime(b).Some? {
      DishFromEitherOrder(name, b, a);
    }
  }


  /**
   * The stored time is rebuilt from the parsed time's hours and minutes
   * only: it equals the parsed time below one day, and loses whole days
   * beyond.
   */
  lemma StoredTime(name: string, tokens: seq<string>)
    requires DishFrom(name, tokens).Some?
    ensures var t := FirstTime(tokens).value;
            && DishFrom(name, tokens).value.time == MakeTime(t.hour, t.minute, 0, 0)
            && (InRange(t) && t.mday == 1 && t.year == 0 ==> DishFrom(name, tokens).value.time == t)
  {
    var t := FirstTime(tokens).value;
    if InRange(t) && t.mday == 1 && t.year == 0 {
      MakeTimeNormalises(t.hour, t.minute, 0, 0);
      InRangeIsFromTotal(t);
      InRangeIsFromTotal(MakeTime(t.hour, t.minute, 0, 0));
    }
  }

  /** Every parsed time is normalised: fields in range, at most 999 years. */
  lemma ParsedTimeInRange(token: string)
    requires ParseTime(token).Some?
    ensures InRange(ParseTime(token).value) && ParseTime(token).value.year <= 999
  {
    var c := CleanTimeToken(token);
    var p := IndexOf(c, ':', 0);
    var h, m := DigitsValue(c[..p]), DigitsValue(c[p + 1..]);
    assert ParseTime(token).value == MakeTime(h, m, 0, 0);
    MakeTimeCanonical(h, m, 0, 0);
    FromTotalInRange(Min(RawTotal(h, m, 0, 0), MaxTotal));
  }

  /**
   * A dish read from a line loses the whole days (and 30-day years) of its
   * parsed time: only the hours and minutes reach the storage.
   */
  lemma StoredTimeLosesDays(name: string, time: string, price: string)
    requires ParseTime(time).Some? && ParseNumber(price).Some?
    ensures var t := ParseTime(time).value;
            var d := DishFrom(name, [time, price]);
            && d.Some?
            && TotalMinutes(d.value.time) == TotalMinutes(t) - 1440 * (t.mday - 1) - 43200 * t.year
            && TotalMinutes(d.value.time) < 1440
  {
    var t := ParseTime(time).value;
    DishFromEitherOrder(name, time, price);
    ParsedTimeInRange(time);
    MakeTimeNormalises(t.hour, t.minute, 0, 0);
  }

  /** Lines without a dish: empty, blank, without a quoted name, or with an empty name. */
  lemma BlankLineNoDish(line: string)
    requires line == "   "
    ensures LineDish(line) == None
  {
    assert DropLeading("   ") == "";
    assert Trimmed(line) == "";
  }

  lemma UnquotedLineNoDish(line: string)
    requires line == "No quotes 12.50 01:30"
    ensures LineDish(line) == None
  {
    DropLeadingNone(line);
    DropTrailingNone(line);
    assert Trimmed(line) == line;
    assert '"' !in line;
    ExtractQuotedRejects(line, "", "");
  }

  lemma EmptyNameLineNoDish(line: string)
    requires line == "\"\" 1.00 00:01"
    ensures LineDish(line) == None
  {
    var b := line;
    DropLeadingNone(b);
    DropTrailingNone(b);
    assert Trimmed(b) == b;
    assert b == "" + "\"\"" + " 1.00 00:01";
    ExtractQuotedRejects(b, "", " 1.00 00:01");
    assert ExtractQuotedName(b) == None;
  }

  lemma RejectedLineExamples()
    ensures LineDish("") == None
    ensures LineDish("   ") == None
    ensures LineDish("No quotes 12.50 01:30") == None
    ensures LineDish("\"\" 1.00 00:01") == None
  {
    EmptyLineNoDish();
    BlankLineNoDish("   ");
    UnquotedLineNoDish("No quotes 12.50 01:30");
    EmptyNameLineNoDish("\"\" 1.00 00:01");
  }


  /** The well-formed line of the file tests gives the dish it describes. */
  lemma AcceptedLineExample(line: string)
    requires line == "\"Test dish\" 12.50 01:30"
    ensures LineDish(line) == Some(Dish("Test dish", 12.5, Time(30, 1, 1, 0)))
  {
    var ws := ExampleLineShape(line);
    MenuLineDish("Test dish", ws);
    ExampleWordsDish("Test dish", ws[0], ws[1]);
  }

  /** The example line is the canonical line of its name and two words. */
  lemma ExampleLineShape(line: string) returns (ws: seq<string>)
    requires line == "\"Test dish\" 12.50 01:30"
    ensures ws == ["12.50", "01:30"] && AllWords(ws)
    ensures line == MenuLine("Test dish", ws)
  {
    ws := ["12.50", "01:30"];
    assert line == MenuLine("Test dish", ws);
  }

  /** The price word and the time word of the example make the dish of their values. */
  lemma ExampleWordsDish(name: string, price: string, time: string)
    requires price == "12.50" && time == "01:30"
    ensures DishFrom(name, [price, time]) == Some(Dish(name, 12.5, Time(30, 1, 1, 0)))
  {
    PointExample(price);
    LeadingZeroTimeExample(time);
    DishFromEitherOrder(name, time, price);
    assert MakeTime(1, 30, 0, 0) == Time(30, 1, 1, 0);
  }

  /** A line with a third token makes no dish. */
  lemma ExtraTokenRejected(name: string, a: string, b: string, c: string)
    requires name != [] && '"' !in name && AllWords([a, b, c])
    ensures LineDish(MenuLine(name, [a, b, c])) == None
  {
    MenuLineDish(name, [a, b, c]);
  }

  // ---------------------------------------------------------------------
  // A file
  // ---------------------------------------------------------------------

  /** The dishes the lines add, in order. */
  function AcceptedDishes(lines: seq<string>): seq<Dish> {
    if lines == [] then []
    else
      AcceptedDishes(lines[..|lines| - 1]) +
      (match LineDish(lines[|lines| - 1]) case Some(d) => [d] case None => [])
  }

  /** The lines parseFile counts as invalid: non-empty and without a dish. */
  function RejectedLines(lines: seq<string>): nat {
    if lines == [] then 0
    else
      var last := lines[|lines| - 1];
      RejectedLines(lines[..|lines| - 1]) + (if last != [] && LineDish(last).None? then 1 else 0)
  }

  /** The empty lines parseFile skips. */
  function EmptyLines(lines: seq<string>): nat {
    if lines == [] then 0
    else EmptyLines(lines[..|lines| - 1]) + (if lines[|lines| - 1] == [] then 1 else 0)
  }

  /** An empty line holds no dish. */
  lemma EmptyLineNoDish()
    ensures LineDish("") == None
  {
    assert Trimmed("") == "";
  }

  /** The counts over a prefix grow by the next line's contribution. */
  lemma LinesStep(lines: seq<string>, i: nat)
    requires i < |lines|
    ensures AcceptedDishes(lines[..i + 1]) ==
      AcceptedDishes(lines[..i]) + (match LineDish(lines[i]) case Some(d) => [d] case None => [])
    ensures RejectedLines(lines[..i + 1]) ==
      RejectedLines(lines[..i]) + (if lines[i] != [] && LineDish(lines[i]).None? then 1 else 0)
  {
    assert lines[..i + 1][..i] == lines[..i];
  }

  /** Every line is exactly one of: a dish, an invalid line, an empty line. */
  lemma {:induction false} LineAccounting(lines: seq<string>)
    ensures |AcceptedDishes(lines)| + RejectedLines(lines) + EmptyLines(lines) == |lines|
  {
    if lines != [] {
      LineAccounting(lines[..|lines| - 1]);
      EmptyLineNoDish();
    }
  }

  /** A blank line is invalid, an empty one is not counted. */
  lemma BlankLinesExample()
    ensures RejectedLines(["", "   "]) == 1 && EmptyLines(["", "   "]) == 1 && AcceptedDishes(["", "   "]) == []
  {
    RejectedLineExamples();
    assert ["", "   "][..1] == [""];
    assert [""][..0] == [];
  }

  /** MenuFileParser: a number parser and a time parser of its own. */
  class MenuFileParser {
    const numberParser: NumberParser
    const timeParser: TimeParser

    /** MenuFileParser(): creates both child parsers. */
    constructor()
      ensures fresh(numberParser) && fresh(timeParser)
    {
      numberParser := new NumberParser();
      timeParser := new TimeParser();
    }

    /** parseDishLine(line, storage): adds LineDish(line) when there is one and says whether it did. */
    method ParseDishLine(line: string, storage: MenuStorage) returns (ok: bool)
      modifies storage, numberParser, timeParser
      ensures ok == LineDish(line).Some?
      ensures storage.dishes == old(storage.dishes) + (if ok then [LineDish(line).value] else [])
    {
      var trimmedLine := Trim(line);
      if |trimmedLine| == 0 {
        return false;
      }
      var split := ExtractQuotedName(trimmedLine);
      if split.None? {
        return false;
      }
      var tokens := Tokenize(split.value.remaining);
      if |tokens| != 2 {
        return false;
      }
      var price, time, hasPrice, hasTime := ScanTokens(tokens);
      if !hasPrice || !hasTime {
        return false;
      }
      storage.AddDish(split.value.name, price, time.hour, time.minute);
      return true;
    }

    /**
     * The token loop of parseDishLine: the first time token gives the time;
     * any other token, while no price is known, is tried as the price.
     */
    method ScanTokens(tokens: seq<string>) returns (price: real, time: Time, hasPrice: bool, hasTime: bool)
      modifies numberParser, timeParser
      ensures hasTime == FirstTime(tokens).Some? && (hasTime ==> time == FirstTime(tokens).value)
      ensures hasPrice == FirstPrice(tokens).Some? && (hasPrice ==> price == FirstPrice(tokens).value)
    {
      price := 0.0;
      time := MakeTime(0, 0, 0, 0);
      hasPrice, hasTime := false, false;
      for i := 0 to |tokens|
        invariant hasTime == FirstTime(tokens[..i]).Some?
        invariant hasTime ==> time == FirstTime(tokens[..i]).value
        invariant hasPrice == FirstPrice(tokens[..i]).Some?
        invariant hasPrice ==> price == FirstPrice(tokens[..i]).value
      {
        var token := tokens[i];
        assert tokens[..i + 1] == tokens[..i] + [token];
        FirstTimeAppend(tokens[..i], token);
        FirstPriceAppend(tokens[..i], token);
        TimeAndNumberDisjoint(token);
        var isTime := false;
        if !hasTime {
          isTime := timeParser.Parse(token);
        }
        if isTime {
          time := timeParser.result;
          hasTime := true;
        } else if !hasPrice {
          var isPrice := numberParser.Parse(token);
          if isPrice {
            price := numberParser.result;
            hasPrice := true;
          }
        }
      }
      assert tokens[..|tokens|] == tokens;
    }

    /**
     * The loop of parseFile over the lines already read: every line that
     * yields a dish adds it, every other non-empty line counts as invalid.
     */
    method ParseLines(lines: seq<string>, storage: MenuStorage, invalidCount0: int) returns (invalidCount: int)
      modifies storage, numberParser, timeParser
      ensures storage.dishes == old(storage.dishes) + AcceptedDishes(lines)
      ensures invalidCount == invalidCount0 + RejectedLines(lines)
    {
      invalidCount := invalidCount0;
      for i := 0 to |lines|
        invariant storage.dishes == old(storage.dishes) + AcceptedDishes(lines[..i])
        invariant invalidCount == invalidCount0 + RejectedLines(lines[..i])
      {
        var line := lines[i];
        LinesStep(lines, i);
        if line != [] {
          var ok := ParseDishLine(line, storage);
          if !ok {
            invalidCount := invalidCount + 1;
          }
        } else {
          EmptyLineNoDish();
        }
      }
      assert lines[..|lines|] == lines;
    }
  }
}
