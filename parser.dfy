/**
 * The whole parse of a summary text (`ParsedSummary` and `parse_summary`).
 */
module Parser {
  import opened Text
  import opened Wrappers
  import opened Sections
  import opened Recap
  import opened Actions
  import opened Topics

  /** The three parts a summary is read into. */
  datatype ParsedSummary = ParsedSummary(quickRecap: seq<string>, actionItems: seq<ActionItem>, summaryTopics: seq<Topic>)

  /** The parse of the summary's lines: each section's lines go to its own reader. */
  function ParseLines(lines: seq<string>): ParsedSummary {
    var ks := Kinds(lines);
    ParsedSummary(
      RecapSentences(Bucket(ks, QuickRecap)),
      ActionItems(Bucket(ks, NextSteps)),
      SummaryTopics(Bucket(ks, Summary)))
  }

  /** `parse_summary`: the text is cut into lines, then parsed. Whatever the text, no
      parsed part holds a line break, since every part comes from a single line. */
  function ParseSummary(text: string): (r: ParsedSummary)
    ensures ParsedWithoutNewline(r)
  {
    var lines := SplitLines(text);
    ParseLinesWithoutNewline(lines);
    ParseLines(lines)
  }

  /** An empty summary parses to three empty parts. */
  lemma EmptySummary()
    ensures ParseSummary("") == ParsedSummary([], [], [])
  {
    assert SplitLines("") == [];
  }

  /** A text in which no line is one of the known headers yields nothing. */
  lemma NoHeaderNothingParsed(lines: seq<string>)
    requires forall i :: 0 <= i < |lines| ==> HeaderKey(Strip(lines[i])).None?
    ensures ParseLines(lines) == ParsedSummary([], [], [])
  {
    var ks := Kinds(lines);
    forall i | 0 <= i < |ks| ensures !ks[i].Header? {
      assert ks[i] == Classify(lines[i]);
    }
    NoHeaderNoActiveKey(ks);
    PreambleBucketEmpty(ks, QuickRecap);
    PreambleBucketEmpty(ks, NextSteps);
    PreambleBucketEmpty(ks, Summary);
  }

  /** Lines before the first header have no effect on the parse. */
  lemma PreambleIgnored(pre: seq<string>, post: seq<string>)
    requires forall i :: 0 <= i < |pre| ==> HeaderKey(Strip(pre[i])).None?
    ensures ParseLines(pre + post) == ParseLines(post)
  {
    var kp := Kinds(pre);
    forall i | 0 <= i < |kp| ensures !kp[i].Header? {
      assert kp[i] == Classify(pre[i]);
    }
    NoHeaderNoActiveKey(kp);
    KindsAppend(pre, post);
    PreambleDiscarded(kp, Kinds(post), QuickRecap);
    PreambleDiscarded(kp, Kinds(post), NextSteps);
    PreambleDiscarded(kp, Kinds(post), Summary);
  }

  /** The recap holds every visible character of the recap section's lines, in order,
      and at least one sentence per line. */
  lemma ParsedRecap(lines: seq<string>)
    ensures var b := Bucket(Kinds(lines), QuickRecap);
      NonSpace(Concat(ParseLines(lines).quickRecap)) == NonSpace(Concat(b))
      && |ParseLines(lines).quickRecap| >= |b|
  {
    var b := Bucket(Kinds(lines), QuickRecap);
    RecapKeepsText(b);
    RecapLength(b);
  }

  /** Every parsed action item has an owner and an action, and comes from one line of the next-steps section. */
  lemma ParsedActions(lines: seq<string>, j: nat)
    requires j < |ParseLines(lines).actionItems|
    ensures var item := ParseLines(lines).actionItems[j];
      item.owner != "" && item.action != "" && ':' !in item.owner
      && exists i :: 0 <= i < |Bucket(Kinds(lines), NextSteps)| && ParseActionLine(Bucket(Kinds(lines), NextSteps)[i]) == Some(item)
  {
    var b := Bucket(Kinds(lines), NextSteps);
    var item := ActionItems(b)[j];
    var i := ActionItemSource(b, item);
  }

  /** The topic titles are the summary section's title lines in order, preceded by "Summary"
      when its first line is body text. */
  lemma ParsedTopicTitles(lines: seq<string>)
    ensures var b := Bucket(Kinds(lines), Summary);
      Titles(ParseLines(lines).summaryTopics) == Lead(b) + TitleLines(b)
  {
    var b := Bucket(Kinds(lines), Summary);
    forall i | 0 <= i < |b| ensures b[i] != "" && IsStripped(b[i]) {
      BucketLinesAreContent(lines, Summary, b[i]);
    }
    TopicTitles(b);
  }

  /** No parsed text holds a line break. */
  predicate ParsedWithoutNewline(p: ParsedSummary) {
    LinesWithoutNewline(p.quickRecap)
    && (forall i :: 0 <= i < |p.actionItems| ==> NoNewline(p.actionItems[i].owner) && NoNewline(p.actionItems[i].action))
    && (forall i :: 0 <= i < |p.summaryTopics| ==> NoNewline(p.summaryTopics[i].title) && NoNewline(p.summaryTopics[i].body))
  }

  /** Lines without line breaks parse to parts without line breaks. */
  lemma ParseLinesWithoutNewline(lines: seq<string>)
    requires LinesWithoutNewline(lines)
    ensures ParsedWithoutNewline(ParseLines(lines))
  {
    var ks := Kinds(lines);
    BucketWithoutNewline(lines, QuickRecap);
    BucketWithoutNewline(lines, NextSteps);
    BucketWithoutNewline(lines, Summary);
    RecapWithoutNewline(Bucket(ks, QuickRecap));
    ActionItemsWithoutNewline(Bucket(ks, NextSteps));
    TopicsWithoutNewline(Bucket(ks, Summary));
  }
}
