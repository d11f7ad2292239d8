/**
 * Rendering a parsed summary as a meeting-log section in Markdown
 * (`format_agenda`, `format_discussion_notes`, `format_action_table` and `build_markdown`).
 */
module Formatter {
  import opened Text
  import opened Actions
  import opened Topics
  import opened Parser

  /** `format_agenda`: one bullet per topic title, or a default bullet when there are no topics. */
  function FormatAgenda(topics: seq<Topic>): (r: seq<string>)
    ensures |r| == if topics == [] then 1 else |topics|
    ensures topics == [] ==> r == ["- Updates from the supervisory team"]
    ensures forall i :: 0 <= i < |topics| ==> r[i] == "- " + topics[i].title
  {
    if topics != [] then seq(|topics|, i requires 0 <= i < |topics| => "- " + topics[i].title)
    else ["- Updates from the supervisory team"]
  }

  /** The recap bullet: all recap sentences joined by "; ". */
  function RecapNote(quickRecap: seq<string>): seq<string> {
    if quickRecap == [] then [] else ["- Quick recap: " + Join("; ", quickRecap)]
  }

  /** A topic bullet: its title, then its body or a placeholder when the body is empty. */
  function TopicNote(t: Topic): string {
    "- " + t.title + ": " + (if t.body != "" then t.body else "Discussion captured in Zoom summary.")
  }

  function TopicNotes(topics: seq<Topic>): (r: seq<string>)
    ensures |r| == |topics|
    ensures forall i :: 0 <= i < |topics| ==> r[i] == TopicNote(topics[i])
  {
    seq(|topics|, i requires 0 <= i < |topics| => TopicNote(topics[i]))
  }

  const PendingNote := "- Discussion notes pending."

  /** The discussion bullets: the recap bullet, then one bullet per topic, or a pending note if there is neither. */
  function DiscussionNotes(quickRecap: seq<string>, topics: seq<Topic>): seq<string> {
    var notes := RecapNote(quickRecap) + TopicNotes(topics);
    if notes == [] then [PendingNote] else notes
  }

  /** `format_discussion_notes`: builds the bullets one at a time. */
  method FormatDiscussionNotes(quickRecap: seq<string>, topics: seq<Topic>) returns (notes: seq<string>)
    ensures notes == DiscussionNotes(quickRecap, topics)
  {
    notes := [];
    if quickRecap != [] {
      if |quickRecap| == 1 {
        notes := notes + ["- Quick recap: " + quickRecap[0]];
      } else {
        var joined := Join("; ", quickRecap);
        notes := notes + ["- Quick recap: " + joined];
      }
    }
    var i := 0;
    while i < |topics|
      invariant 0 <= i <= |topics|
      invariant notes == RecapNote(quickRecap) + TopicNotes(topics[..i])
    {
      var content := if topics[i].body != "" then topics[i].body else "Discussion captured in Zoom summary.";
      notes := notes + ["- " + topics[i].title + ": " + content];
      i := i + 1;
    }
    assert topics[..i] == topics;
    if notes == [] {
      notes := notes + [PendingNote];
    }
  }

  /** One bullet for the recap (if any) and one per topic, and at least one bullet. */
  lemma DiscussionCount(quickRecap: seq<string>, topics: seq<Topic>)
    ensures |DiscussionNotes(quickRecap, topics)|
      == if quickRecap == [] && topics == [] then 1 else (if quickRecap == [] then 0 else 1) + |topics|
  {
  }

  /** The pending note appears exactly when there is neither a recap nor a topic. */
  lemma PendingIffNothing(quickRecap: seq<string>, topics: seq<Topic>)
    ensures DiscussionNotes(quickRecap, topics) == [PendingNote] <==> quickRecap == [] && topics == []
  {
    var notes := RecapNote(quickRecap) + TopicNotes(topics);
    if notes != [] {
      if quickRecap != [] {
        RecapNoteHasColon(quickRecap);
        assert notes[0] == RecapNote(quickRecap)[0];
      } else {
        TopicNoteHasColon(topics[0]);
        assert notes[0] == TopicNote(topics[0]);
      }
      assert ':' !in PendingNote;
      assert notes[0] != PendingNote;
    }
  }

  lemma RecapNoteHasColon(quickRecap: seq<string>)
    requires quickRecap != []
    ensures ':' in RecapNote(quickRecap)[0]
  {
    assert RecapNote(quickRecap)[0][13] == ':';
  }

  lemma TopicNoteHasColon(t: Topic)
    ensures ':' in TopicNote(t)
  {
    assert TopicNote(t)[2 + |t.title|] == ':';
  }

  /** Every recap sentence and every topic appears in the notes, in order. */
  lemma NotesContainParts(quickRecap: seq<string>, topics: seq<Topic>)
    requires quickRecap != [] || topics != []
    ensures var notes := DiscussionNotes(quickRecap, topics);
      var k := if quickRecap == [] then 0 else 1;
      (quickRecap != [] ==> notes[0] == "- Quick recap: " + Join("; ", quickRecap))
      && forall i :: 0 <= i < |topics| ==> notes[k + i] == TopicNote(topics[i])
  {
  }

  const TableHeader := ["| Action | Owner | Due | Status |", "|--------|-------|-----|--------|"]
  const NoItemsRow := "| No action items recorded | - | - | - |"

  /** An open action with no due date. */
  function ActionRow(item: ActionItem): string {
    "| " + item.action + " | " + item.owner + " |  | Open |"
  }

  function ActionRows(items: seq<ActionItem>): (r: seq<string>)
    ensures |r| == |items|
    ensures forall i :: 0 <= i < |items| ==> r[i] == ActionRow(items[i])
  {
    seq(|items|, i requires 0 <= i < |items| => ActionRow(items[i]))
  }

  /** The table: header and rule, then one row per item or a single "no items" row. */
  function ActionTable(items: seq<ActionItem>): seq<string> {
    TableHeader + if items == [] then [NoItemsRow] else ActionRows(items)
  }

  /** `format_action_table`: starts from the header rows and appends the item rows. */
  method FormatActionTable(items: seq<ActionItem>) returns (rows: seq<string>)
    ensures rows == ActionTable(items)
  {
    rows := ["| Action | Owner | Due | Status |", "|--------|-------|-----|--------|"];
    if items == [] {
      rows := rows + ["| No action items recorded | - | - | - |"];
      return;
    }
    var i := 0;
    while i < |items|
      invariant 0 <= i <= |items|
      invariant rows == TableHeader + ActionRows(items[..i])
    {
      rows := rows + ["| " + items[i].action + " | " + items[i].owner + " |  | Open |"];
      i := i + 1;
    }
    assert items[..i] == items;
  }

  /** The table has the two header rows and then one row per item, at least one row in all. */
  lemma TableShape(items: seq<ActionItem>)
    ensures var t := ActionTable(items);
      |t| == 2 + (if items == [] then 1 else |items|)
      && t[..2] == TableHeader
      && forall i :: 0 <= i < |items| ==> t[2 + i] == ActionRow(items[i])
  {
  }

  /** The "no items" row is there exactly when there are no items: no item row can look like it. */
  lemma NoItemsRowIffEmpty(items: seq<ActionItem>)
    ensures ActionTable(items)[2] == NoItemsRow <==> items == []
  {
    if items != [] {
      var row := ActionRow(items[0]);
      assert row[|row| - 3] == 'n';
      assert NoItemsRow[|NoItemsRow| - 3] == '-';
    }
  }

  /** The command-line options; an empty string stands for an option that was not given. */
  datatype Options = Options(
    date: string, time: string, connection: string, attendees: string, apologies: string,
    student: string, nextMeeting: string, followUp: string)

  /** Python's `a or b` on strings. */
  function Or(a: string, b: string): string {
    if a != "" then a else b
  }

  function DateLabel(o: Options): string { Or(o.date, "YYYY-MM-DD") }

  /** The time, followed by " — " and the connection when a connection other than "TBD" is given. */
  function TimeConnection(o: Options): string {
    var connection := Or(o.connection, "TBD");
    if connection != "" && connection != "TBD" then Or(o.time, "TBD") + " — " + connection
    else Or(o.time, "TBD")
  }

  const DefaultFollowUp := "- Note any reminders or checks" + " before the next meeting."

  /** A bullet of the meeting details, with the label in bold. */
  function Field(name: string, value: string): string {
    "- **" + name + ":** " + value
  }

  /** The heading and the meeting details, up to the agenda heading. */
  function HeaderLines(o: Options): seq<string> {
    var date := DateLabel(o);
    ["---",
     "## Meeting " + date,
     "",
     Field("Date", date),
     Field("Time / connection", TimeConnection(o)),
     Field("Next meeting", Or(o.nextMeeting, "TBD")),
     Field("Attendees", Or(o.attendees, Or(o.student, "TBD"))),
     Field("Apologies", Or(o.apologies, "None")),
     "",
     "### Agenda"]
  }

  /** The follow-up heading and note, and the empty line that ends the section. */
  function FooterLines(o: Options): seq<string> {
    ["", "### Follow-up", Or(o.followUp, DefaultFollowUp), ""]
  }

  /** The lines of the meeting-log section, ending with an empty line. */
  function MarkdownLines(parsed: ParsedSummary, o: Options): seq<string> {
    HeaderLines(o)
    + FormatAgenda(parsed.summaryTopics)
    + ["", "### Discussion notes"]
    + DiscussionNotes(parsed.quickRecap, parsed.summaryTopics)
    + ["", "### Action items"]
    + ActionTable(parsed.actionItems)
    + FooterLines(o)
  }

  /** `build_markdown`: the section's lines joined by newlines; the text always ends with
      a newline, since the last line is empty. */
  function BuildMarkdown(parsed: ParsedSummary, o: Options): (r: string)
    ensures EndsWithNewline(r)
  {
    var lines := MarkdownLines(parsed, o);
    var n := |lines| - 1;
    assert lines == lines[..n] + [""];
    JoinSnoc("\n", lines[..n], "");
    Join("\n", lines)
  }

  /** The options as the command line fills them in when they are left out. */
  const CommandLineDefaults := Options("YYYY-MM-DD", "TBD", "TBD", "", "", "", "TBD", "")

  const NoOptions := Options("", "", "", "", "", "", "", "")

  /** The labels fall back to the same values whether an option is missing or left at its command-line default. */
  lemma DefaultsAgree(parsed: ParsedSummary)
    ensures MarkdownLines(parsed, CommandLineDefaults) == MarkdownLines(parsed, NoOptions)
    ensures HeaderLines(NoOptions)[1..8] == [
      "## Meeting " + "YYYY-MM-DD", "", Field("Date", "YYYY-MM-DD"), Field("Time / connection", "TBD"),
      Field("Next meeting", "TBD"), Field("Attendees", "TBD"), Field("Apologies", "None")]
    ensures FooterLines(NoOptions)[2] == DefaultFollowUp
  {
    assert HeaderLines(CommandLineDefaults) == HeaderLines(NoOptions);
  }

  /** A connection other than "TBD" is shown after the time, and only then: a missing
      connection or "TBD" leaves the time alone. */
  lemma ConnectionShown(o: Options)
    ensures o.connection != "" && o.connection != "TBD" ==>
      TimeConnection(o) == Or(o.time, "TBD") + " — " + o.connection
    ensures TimeConnection(o) == Or(o.time, "TBD") <==> o.connection == "" || o.connection == "TBD"
  {
  }

  /** Each meeting detail shows its option when one is given and its placeholder otherwise;
      the attendees fall back to the student before the placeholder. */
  lemma HeaderFields(o: Options)
    ensures var h := HeaderLines(o);
      var date := if o.date != "" then o.date else "YYYY-MM-DD";
      h[1] == "## Meeting " + date
      && h[3] == Field("Date", date)
      && h[4] == Field("Time / connection", TimeConnection(o))
      && h[5] == Field("Next meeting", if o.nextMeeting != "" then o.nextMeeting else "TBD")
      && h[6] == Field("Attendees",
           if o.attendees != "" then o.attendees else if o.student != "" then o.student else "TBD")
      && h[7] == Field("Apologies", if o.apologies != "" then o.apologies else "None")
    ensures FooterLines(o)[2] == if o.followUp != "" then o.followUp else DefaultFollowUp
  {
  }

  /** The section opens with the heading and the meeting details and closes with the follow-up note. */
  lemma MarkdownFrame(parsed: ParsedSummary, o: Options)
    ensures var lines := MarkdownLines(parsed, o);
      |lines| >= 14 && lines[..10] == HeaderLines(o) && lines[|lines| - 4..] == FooterLines(o)
  {
  }

  /** The headings sit between the blocks, in the order agenda, discussion notes, action items, follow-up. */
  lemma MarkdownLayout(parsed: ParsedSummary, o: Options)
    ensures var lines := MarkdownLines(parsed, o);
      var agenda := FormatAgenda(parsed.summaryTopics);
      var notes := DiscussionNotes(parsed.quickRecap, parsed.summaryTopics);
      var table := ActionTable(parsed.actionItems);
      var a, d, t := |agenda|, |notes|, |table|;
      |lines| == 18 + a + d + t
      && lines[9] == "### Agenda" && lines[10..10 + a] == agenda
      && lines[11 + a] == "### Discussion notes" && lines[12 + a..12 + a + d] == notes
      && lines[13 + a + d] == "### Action items" && lines[14 + a + d..14 + a + d + t] == table
      && lines[15 + a + d + t] == "### Follow-up"
  {
    Layout(HeaderLines(o), FormatAgenda(parsed.summaryTopics), DiscussionNotes(parsed.quickRecap, parsed.summaryTopics),
      ActionTable(parsed.actionItems), FooterLines(o));
  }

  lemma Layout(h: seq<string>, agenda: seq<string>, notes: seq<string>, table: seq<string>, f: seq<string>)
    requires |h| == 10 && |f| == 4
    ensures var lines := h + agenda + ["", "### Discussion notes"] + notes + ["", "### Action items"] + table + f;
      var a, d, t := |agenda|, |notes|, |table|;
      |lines| == 18 + a + d + t
      && lines[9] == h[9] && lines[10..10 + a] == agenda
      && lines[11 + a] == "### Discussion notes" && lines[12 + a..12 + a + d] == notes
      && lines[13 + a + d] == "### Action items" && lines[14 + a + d..14 + a + d + t] == table
      && lines[15 + a + d + t] == f[1]
  {
    var a, d, t := |agenda|, |notes|, |table|;
    var x1: seq<string>, x2: seq<string> := ["", "### Discussion notes"], ["", "### Action items"];
    var p1 := h + agenda;
    var p2 := p1 + x1 + notes;
    var p3 := p2 + x2 + table;
    var lines := p3 + f;
    Placed(h, agenda, []);
    Placed(p1, x1, notes);
    Placed(p1 + x1, notes, []);
    Placed(p2, x2, table);
    Placed(p2 + x2, table, []);
    Placed(p3, f, []);
    SliceOfPrefix(p1, lines, 10, 10 + a);
    SliceOfPrefix(p2, lines, 12 + a, 12 + a + d);
    SliceOfPrefix(p3, lines, 14 + a + d, 14 + a + d + t);
  }

  /** Where the middle block of a concatenation lands. */
  lemma Placed(xs: seq<string>, ys: seq<string>, zs: seq<string>)
    ensures (xs + ys + zs)[|xs|..|xs| + |ys|] == ys
    ensures forall i :: 0 <= i < |ys| ==> (xs + ys + zs)[|xs| + i] == ys[i]
  {
  }

  lemma SliceOfPrefix(p: seq<string>, whole: seq<string>, i: nat, j: nat)
    requires i <= j <= |p| <= |whole| && whole[..|p|] == p
    ensures whole[i..j] == p[i..j]
  {
    forall k | 0 <= k < j - i ensures whole[i..j][k] == p[i..j][k] {
      assert whole[i + k] == whole[..|p|][i + k];
    }
  }

  predicate OptionsWithoutNewline(o: Options) {
    NoNewline(o.date) && NoNewline(o.time) && NoNewline(o.connection) && NoNewline(o.attendees)
    && NoNewline(o.apologies) && NoNewline(o.student) && NoNewline(o.nextMeeting) && NoNewline(o.followUp)
  }

  lemma AgendaWithoutNewline(topics: seq<Topic>)
    requires forall i :: 0 <= i < |topics| ==> NoNewline(topics[i].title)
    ensures LinesWithoutNewline(FormatAgenda(topics))
  {
  }

  lemma TopicNoteWithoutNewline(t: Topic)
    requires NoNewline(t.title) && NoNewline(t.body)
    ensures NoNewline(TopicNote(t))
  {
    assert NoNewline("Discussion captured in Zoom summary.");
  }

  lemma NotesWithoutNewline(quickRecap: seq<string>, topics: seq<Topic>)
    requires LinesWithoutNewline(quickRecap)
    requires forall i :: 0 <= i < |topics| ==> NoNewline(topics[i].title) && NoNewline(topics[i].body)
    ensures LinesWithoutNewline(DiscussionNotes(quickRecap, topics))
  {
    if quickRecap != [] {
      JoinWithoutNewline("; ", quickRecap);
    }
    forall i | 0 <= i < |topics| ensures NoNewline(TopicNotes(topics)[i]) {
      TopicNoteWithoutNewline(topics[i]);
    }
    LinesAppend(RecapNote(quickRecap), TopicNotes(topics));
  }

  lemma TableWithoutNewline(items: seq<ActionItem>)
    requires forall i :: 0 <= i < |items| ==> NoNewline(items[i].owner) && NoNewline(items[i].action)
    ensures LinesWithoutNewline(ActionTable(items))
  {
    forall i | 0 <= i < |items| ensures NoNewline(ActionRows(items)[i]) {
      ActionRowWithoutNewline(items[i]);
    }
    FixedRowsWithoutNewline();
    LinesAppend(TableHeader, if items == [] then [NoItemsRow] else ActionRows(items));
  }

  lemma FixedRowsWithoutNewline()
    ensures LinesWithoutNewline(TableHeader) && NoNewline(NoItemsRow)
  {
    assert NoNewline(TableHeader[0]);
    assert NoNewline(TableHeader[1]);
  }

  lemma ActionRowWithoutNewline(item: ActionItem)
    requires NoNewline(item.owner) && NoNewline(item.action)
    ensures NoNewline(ActionRow(item))
  {
  }

  lemma FieldWithoutNewline(name: string, value: string)
    requires NoNewline(name) && NoNewline(value)
    ensures NoNewline(Field(name, value))
  {
  }

  lemma OrWithoutNewline(a: string, b: string)
    requires NoNewline(a) && NoNewline(b)
    ensures NoNewline(Or(a, b))
  {
  }

  lemma HeaderWithoutNewline(o: Options)
    requires OptionsWithoutNewline(o)
    ensures LinesWithoutNewline(HeaderLines(o))
  {
    OrWithoutNewline(o.date, "YYYY-MM-DD");
    OrWithoutNewline(o.time, "TBD");
    OrWithoutNewline(o.connection, "TBD");
    OrWithoutNewline(o.nextMeeting, "TBD");
    OrWithoutNewline(o.student, "TBD");
    OrWithoutNewline(o.attendees, Or(o.student, "TBD"));
    OrWithoutNewline(o.apologies, "None");
    var date := DateLabel(o);
    FieldWithoutNewline("Date", date);
    FieldWithoutNewline("Time / connection", TimeConnection(o));
    FieldWithoutNewline("Next meeting", Or(o.nextMeeting, "TBD"));
    FieldWithoutNewline("Attendees", Or(o.attendees, Or(o.student, "TBD")));
    FieldWithoutNewline("Apologies", Or(o.apologies, "None"));
  }

  lemma FooterWithoutNewline(o: Options)
    requires NoNewline(o.followUp)
    ensures LinesWithoutNewline(FooterLines(o))
  {
    assert NoNewline("- Note any reminders or checks");
    assert NoNewline(" before the next meeting.");
  }

  lemma MarkdownLinesWithoutNewline(parsed: ParsedSummary, o: Options)
    requires ParsedWithoutNewline(parsed) && OptionsWithoutNewline(o)
    ensures LinesWithoutNewline(MarkdownLines(parsed, o))
  {
    var h, f := HeaderLines(o), FooterLines(o);
    var agenda := FormatAgenda(parsed.summaryTopics);
    var notes := DiscussionNotes(parsed.quickRecap, parsed.summaryTopics);
    var table := ActionTable(parsed.actionItems);
    HeaderWithoutNewline(o);
    AgendaWithoutNewline(parsed.summaryTopics);
    NotesWithoutNewline(parsed.quickRecap, parsed.summaryTopics);
    TableWithoutNewline(parsed.actionItems);
    FooterWithoutNewline(o);
    var x1: seq<string>, x2: seq<string> := ["", "### Discussion notes"], ["", "### Action items"];
    assert LinesWithoutNewline(x1) && LinesWithoutNewline(x2);
    LinesAppend(h, agenda);
    LinesAppend(h + agenda, x1);
    LinesAppend(h + agenda + x1, notes);
    LinesAppend(h + agenda + x1 + notes, x2);
    LinesAppend(h + agenda + x1 + notes + x2, table);
    LinesAppend(h + agenda + x1 + notes + x2 + table, f);
  }

  /** Reading the generated text back line by line gives exactly the section's lines,
      the final empty one standing for the closing newline. */
  lemma MarkdownRoundTrip(parsed: ParsedSummary, o: Options)
    requires ParsedWithoutNewline(parsed) && OptionsWithoutNewline(o)
    ensures SplitLines(BuildMarkdown(parsed, o)) + [""] == MarkdownLines(parsed, o)
  {
    var lines := MarkdownLines(parsed, o);
    var n := |lines| - 1;
    MarkdownLinesWithoutNewline(parsed, o);
    assert lines == lines[..n] + [""];
    SplitLinesOfJoin(lines[..n]);
  }

  /** Any summary text, parsed and rendered, reads back line by line as the section's lines. */
  lemma SummaryRoundTrip(text: string, o: Options)
    requires OptionsWithoutNewline(o)
    ensures SplitLines(BuildMarkdown(ParseSummary(text), o)) + [""] == MarkdownLines(ParseSummary(text), o)
  {
    MarkdownRoundTrip(ParseSummary(text), o);
  }
}
