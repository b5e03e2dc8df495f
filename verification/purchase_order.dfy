/**
 The purchase-order check `verify_po`: scan the lines of a text for the first
 line that starts with "po" (in any case) AND contains a colon; that line alone
 decides, by whether its second colon-separated field, stripped, is on the
 allow-list. A "po" line without a colon is passed over.
 */
module PurchaseOrder {
  import opened PyStr

  /** The purchase-order numbers the application accepts. */
  const ValidPos: set<string> := {"12345", "98765"}

  /** The line's lowered form starts with "po" — any word beginning with
      those two letters qualifies, not only the marker "PO". */
  predicate IsPoLine(line: string) {
    StartsWith(Lower(line), "po")
  }

  /** A line the scan stops at: a "po" line that contains a colon. */
  predicate Decides(line: string) {
    IsPoLine(line) && ':' in line
  }

  /** The value a deciding line carries: its second colon-separated field, stripped. */
  function PoValue(line: string): string
    requires ':' in line
  {
    SplitSeveralIff(line, ':');
    Strip(Split(line, ':')[1])
  }

  /** The `for line in ...` loop of `verify_po` over a list of lines. */
  function ScanLines(lines: seq<string>): bool
    decreases |lines|
  {
    if |lines| == 0 then false
    else if IsPoLine(lines[0]) then
      var parts := Split(lines[0], ':');
      if |parts| > 1 then Strip(parts[1]) in ValidPos
      else ScanLines(lines[1..])
    else ScanLines(lines[1..])
  }

  /** `verify_po(text)`. */
  function VerifyPo(text: string): bool {
    ScanLines(SplitLines(text))
  }

  /** A successful scan has seen a deciding line with an allow-listed value. */
  lemma {:induction false} ScanLinesSound(lines: seq<string>)
    requires ScanLines(lines)
    ensures exists k :: 0 <= k < |lines| && Decides(lines[k]) && PoValue(lines[k]) in ValidPos
    decreases |lines|
  {
    SplitSeveralIff(lines[0], ':');
    if !Decides(lines[0]) {
      ScanLinesSound(lines[1..]);
      var k :| 0 <= k < |lines[1..]| && Decides(lines[1..][k]) && PoValue(lines[1..][k]) in ValidPos;
      assert lines[k + 1] == lines[1..][k];
    }
  }

  /** If `verify_po(text)` holds, some line of the text starts with "po" in any
      case, contains a colon, and carries an allow-listed value. */
  lemma VerifyPoSound(text: string)
    requires VerifyPo(text)
    ensures exists line :: line in SplitLines(text) && IsPoLine(line) && ':' in line && PoValue(line) in ValidPos
  {
    var lines := SplitLines(text);
    ScanLinesSound(lines);
    var k :| 0 <= k < |lines| && Decides(lines[k]) && PoValue(lines[k]) in ValidPos;
    assert lines[k] in lines;
  }

  // ---------------------------------------------------------------------------
  // What decides the scan
  // ---------------------------------------------------------------------------

  /** `k` is the first deciding line. */
  predicate IsFirstDecider(lines: seq<string>, k: int) {
    && 0 <= k < |lines|
    && Decides(lines[k])
    && forall j :: 0 <= j < k ==> !Decides(lines[j])
  }

  /** Lines before the first deciding one — non-"po" lines and colon-less "po"
      lines alike — are passed over. */
  lemma {:induction false} ScanSkips(pre: seq<string>, post: seq<string>)
    requires forall j :: 0 <= j < |pre| ==> !Decides(pre[j])
    ensures ScanLines(pre + post) == ScanLines(post)
    decreases |pre|
  {
    if |pre| > 0 {
      var lines := pre + post;
      assert lines[0] == pre[0];
      SplitSeveralIff(pre[0], ':');
      assert lines[1..] == pre[1..] + post;
      ScanSkips(pre[1..], post);
    } else {
      assert pre + post == post;
    }
  }

  /** A deciding line settles the scan; nothing after it is looked at. */
  lemma ScanStops(line: string, post: seq<string>)
    requires Decides(line)
    ensures ScanLines([line] + post) == (PoValue(line) in ValidPos)
  {
    SplitSeveralIff(line, ':');
    assert ([line] + post)[0] == line;
  }

  /** The first deciding line alone determines the outcome. */
  lemma ScanFirstDecider(lines: seq<string>, k: int)
    requires IsFirstDecider(lines, k)
    ensures ScanLines(lines) == (PoValue(lines[k]) in ValidPos)
  {
    assert lines == lines[..k] + ([lines[k]] + lines[k + 1..]);
    ScanSkips(lines[..k], [lines[k]] + lines[k + 1..]);
    ScanStops(lines[k], lines[k + 1..]);
  }

  /** Without a deciding line the scan fails. */
  lemma ScanNoDecider(lines: seq<string>)
    requires forall j :: 0 <= j < |lines| ==> !Decides(lines[j])
    ensures !ScanLines(lines)
  {
    ScanSkips(lines, []);
    assert lines + [] == lines;
  }

  /** The full characterisation: `verify_po(text)` holds exactly when the text
      has a first deciding line and that line's value is on the allow-list. */
  lemma VerifyPoIff(text: string)
    ensures VerifyPo(text) <==>
      exists k :: IsFirstDecider(SplitLines(text), k) && PoValue(SplitLines(text)[k]) in ValidPos
  {
    var lines := SplitLines(text);
    if exists k :: 0 <= k < |lines| && Decides(lines[k]) {
      var k := FirstDeciderOf(lines);
      ScanFirstDecider(lines, k);
    } else {
      ScanNoDecider(lines);
    }
  }

  /** The least index of a deciding line, when there is one. */
  lemma FirstDeciderOf(lines: seq<string>) returns (k: int)
    requires exists k :: 0 <= k < |lines| && Decides(lines[k])
    ensures IsFirstDecider(lines, k)
  {
    k := 0;
    while !Decides(lines[k])
      invariant 0 <= k < |lines|
      invariant forall j :: 0 <= j < k ==> !Decides(lines[j])
      invariant exists m :: k <= m < |lines| && Decides(lines[m])
      decreases |lines| - k
    {
      k := k + 1;
    }
  }

  /** A text with no line starting with "po" never verifies. */
  lemma VerifyPoNeedsPoLine(text: string)
    requires forall j :: 0 <= j < |SplitLines(text)| ==> !IsPoLine(SplitLines(text)[j])
    ensures !VerifyPo(text)
  {
    ScanNoDecider(SplitLines(text));
  }

  // ---------------------------------------------------------------------------
  // Which part of the line is the value, and which lines are "po" lines
  // ---------------------------------------------------------------------------

  /** The value is exactly the text between the first and the second colon (or
      the end of the line), stripped: the first field and any fields after the
      second play no part. */
  lemma PoValueOf(before: string, field: string, after: string)
    requires ':' !in before && ':' !in field
    requires after == [] || after[0] == ':'
    ensures ':' in before + [':'] + field + after
    ensures PoValue(before + [':'] + field + after) == Strip(field)
  {
    var line := before + [':'] + field + after;
    assert line[|before|] == ':';
    assert line == before + [':'] + (field + after);
    SplitOfField(before, field + after, ':');
    SplitOfPrefix(field, after, ':');
    if after == [] {
      assert Split(after, ':')[0] == "";
    } else {
      assert after == [':'] + after[1..];
      SplitOfField("", after[1..], ':');
      assert "" + [':'] + after[1..] == after;
    }
    assert field + "" == field;
  }

  /** A line is a "po" line exactly when its first two characters are "p"/"P"
      then "o"/"O". */
  lemma IsPoLineIff(line: string)
    ensures IsPoLine(line) <==>
      |line| >= 2 && (line[0] == 'p' || line[0] == 'P') && (line[1] == 'o' || line[1] == 'O')
  {
    if |line| >= 2 {
      assert Lower(line)[..2] == [LowerChar(line[0]), LowerChar(line[1])];
    }
  }

  // ---------------------------------------------------------------------------
  // Worked cases
  // ---------------------------------------------------------------------------

  /** A one-line text is scanned as that single line. */
  lemma VerifyOneLine(line: string)
    requires |line| > 0 && HasNoBreak(line)
    ensures VerifyPo(line) == ScanLines([line])
  {
    SplitLinesOfLine(line);
  }

  /** A two-line text ("\n"-separated) is scanned as those two lines. */
  lemma VerifyTwoLines(first: string, second: string)
    requires HasNoBreak(first) && |second| > 0 && HasNoBreak(second)
    ensures VerifyPo(first + "\n" + second) == ScanLines([first, second])
  {
    SplitLinesAppend([first], "\n", second);
    assert Terminated([first], "\n") == first + "\n";
    assert Terminated([first], "\n") + second == first + "\n" + second;
    SplitLinesOfLine(second);
  }

  /** In a two-line text whose first line decides, the second is never read. */
  lemma FirstOfTwoDecides(first: string, second: string)
    requires HasNoBreak(first) && |second| > 0 && HasNoBreak(second) && Decides(first)
    ensures VerifyPo(first + "\n" + second) == (PoValue(first) in ValidPos)
  {
    VerifyTwoLines(first, second);
    ScanStops(first, [second]);
    assert [first] + [second] == [first, second];
  }

  /** In a two-line text whose first line does not decide, the second does. */
  lemma SecondOfTwoDecides(first: string, second: string)
    requires HasNoBreak(first) && |second| > 0 && HasNoBreak(second)
    requires !Decides(first) && Decides(second)
    ensures VerifyPo(first + "\n" + second) == (PoValue(second) in ValidPos)
  {
    VerifyTwoLines(first, second);
    ScanSkips([first], [second]);
    ScanStops(second, []);
    assert [first] + [second] == [first, second];
    assert [second] + [] == [second];
  }

  /** A one-line text whose line decides is settled by that line's value. */
  lemma VerifyDecidingLine(line: string)
    requires |line| > 0 && HasNoBreak(line) && Decides(line)
    ensures VerifyPo(line) == (PoValue(line) in ValidPos)
  {
    VerifyOneLine(line);
    ScanStops(line, []);
    assert [line] + [] == [line];
  }

  /** A line made of a "po" word, a colon, a padded value, then a further
      colon-led part or nothing: it decides, and its value is the bare value. */
  lemma FieldLine(line: string, before: string, lead: string, value: string, trail: string, after: string)
    requires line == before + [':'] + (lead + value + trail) + after
    requires |before| >= 2 && (before[0] == 'p' || before[0] == 'P') && (before[1] == 'o' || before[1] == 'O')
    requires ':' !in before && ':' !in lead + value + trail
    requires AllSpace(lead) && AllSpace(trail)
    requires value == [] || (!IsSpace(value[0]) && !IsSpace(value[|value| - 1]))
    requires after == [] || after[0] == ':'
    ensures |line| > 0 && Decides(line) && PoValue(line) == value
  {
    PoValueOf(before, lead + value + trail, after);
    StripOf(lead, value, trail);
    IsPoLineIff(line);
    assert line[0] == before[0] && line[1] == before[1];
  }

  /** `line` is a single line of text that decides the scan, with value `value`. */
  predicate DecidingLine(line: string, value: string) {
    |line| > 0 && HasNoBreak(line) && Decides(line) && PoValue(line) == value
  }

  /** A single line of text that does not decide the scan. */
  predicate PassedLine(line: string) {
    |line| > 0 && HasNoBreak(line) && !Decides(line)
  }

  // Worked cases. The facts about each line are established once, line by
  // line; a two-line text is written as its first line, "\n", its second.

  lemma LineMarker()
    ensures DecidingLine("PO: 12345", "12345")
  {
    assert HasNoBreak("PO: 12345");
    FieldLine("PO: 12345", "PO", " ", "12345", "", "");
  }

  lemma LineMarkerUnknown()
    ensures DecidingLine("PO: 99999", "99999")
  {
    assert HasNoBreak("PO: 99999");
    FieldLine("PO: 99999", "PO", " ", "99999", "", "");
  }

  lemma LineMarkerOther()
    ensures DecidingLine("PO: 98765", "98765")
  {
    assert HasNoBreak("PO: 98765");
    FieldLine("PO: 98765", "PO", " ", "98765", "", "");
  }

  lemma LineThirdField()
    ensures DecidingLine("po:12345: extra", "12345")
  {
    assert HasNoBreak("po:12345: extra");
    FieldLine("po:12345: extra", "po", "", "12345", "", ": extra");
  }

  lemma LineUnpadded()
    ensures DecidingLine("PO:99999", "99999")
  {
    assert HasNoBreak("PO:99999");
    FieldLine("PO:99999", "PO", "", "99999", "", "");
  }

  lemma LineTrailingWord()
    ensures DecidingLine("PO: 12345 6", "12345 6")
  {
    assert HasNoBreak("PO: 12345 6");
    FieldLine("PO: 12345 6", "PO", " ", "12345 6", "", "");
  }

  lemma LinePortland()
    ensures DecidingLine("Portland: 12345", "12345")
  {
    assert HasNoBreak("Portland: 12345");
    FieldLine("Portland: 12345", "Portland", " ", "12345", "", "");
  }

  lemma LineNoPo()
    ensures PassedLine("no po line here") && !IsPoLine("no po line here")
  {
    IsPoLineIff("no po line here");
  }

  lemma LineNoColon()
    ensures PassedLine("po reference 12345") && IsPoLine("po reference 12345")
  {
    IsPoLineIff("po reference 12345");
  }

  lemma LineColonless()
    ensures PassedLine("po ref 1")
  {
  }

  lemma LineOther()
    ensures |"Other: x"| > 0 && HasNoBreak("Other: x")
  {
  }

  lemma VerifyPoExampleMarker()
    ensures VerifyPo("PO: 12345")
  {
    LineMarker();
    VerifyDecidingLine("PO: 12345");
  }

  /** Only the second colon-separated field is read; a third is ignored. */
  lemma VerifyPoExampleThirdFieldIgnored()
    ensures VerifyPo("po:12345: extra")
  {
    LineThirdField();
    VerifyDecidingLine("po:12345: extra");
  }

  lemma VerifyPoExampleUnknownNumber()
    ensures !VerifyPo("PO:99999")
  {
    LineUnpadded();
    VerifyDecidingLine("PO:99999");
  }

  /** The whole stripped field must be on the allow-list, not just a prefix. */
  lemma VerifyPoExampleTrailingWord()
    ensures !VerifyPo("PO: 12345 6")
  {
    LineTrailingWord();
    VerifyDecidingLine("PO: 12345 6");
    assert PoValue("PO: 12345 6") == "12345 6";
  }

  /** Any word beginning with "po" opens a "po" line. */
  lemma VerifyPoExamplePortland()
    ensures VerifyPo("Portland: 12345")
  {
    LinePortland();
    VerifyDecidingLine("Portland: 12345");
  }

  lemma VerifyPoExampleNoPoLine()
    ensures !VerifyPo("no po line here")
  {
    LineNoPo();
    VerifyOneLine("no po line here");
    ScanNoDecider(["no po line here"]);
  }

  lemma VerifyPoExampleNoColon()
    ensures !VerifyPo("po reference 12345")
  {
    LineNoColon();
    VerifyOneLine("po reference 12345");
    ScanNoDecider(["po reference 12345"]);
  }

  lemma VerifyPoExampleLaterLineIgnored()
    ensures VerifyPo("PO: 12345" + "\n" + "Other: x")
  {
    LineMarker();
    LineOther();
    FirstOfTwoDecides("PO: 12345", "Other: x");
  }

  /** A colon-less "po" line is passed over and the scan goes on. */
  lemma VerifyPoExampleColonlessSkipped()
    ensures VerifyPo("po ref 1" + "\n" + "PO: 98765")
  {
    LineColonless();
    LineMarkerOther();
    SecondOfTwoDecides("po ref 1", "PO: 98765");
  }

  /** Only the first deciding line counts: a valid number on a later "po" line
      does not rescue an invalid first one. */
  lemma VerifyPoExampleOnlyFirstDecides()
    ensures !VerifyPo("PO: 99999" + "\n" + "PO: 12345")
    ensures Decides("PO: 12345") && PoValue("PO: 12345") in ValidPos
  {
    LineMarkerUnknown();
    LineMarker();
    FirstOfTwoDecides("PO: 99999", "PO: 12345");
  }
}
