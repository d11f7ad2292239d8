/**
 * Grouping "Summary" lines into titled topics (`parse_summary_topics`).
 */
module Topics {
  import opened Text
  import opened Recap

  /** A topic: its title and its body, the body lines joined by single spaces. */
  datatype Topic = Topic(title: string, body: string)

  /** `re.search(r"[.!?]$", line)`: without MULTILINE, `$` matches at the very end
      and also just before a final newline. */
  predicate EndsWithPunct(line: string) {
    (|line| >= 1 && IsSentenceEnd(line[|line| - 1]))
    || (|line| >= 2 && line[|line| - 1] == '\n' && IsSentenceEnd(line[|line| - 2]))
  }

  /** A line is a title when it does not end with sentence punctuation. */
  predicate IsTitleLine(line: string) {
    !EndsWithPunct(line)
  }

  /** The title test looks at the last character of a line, and past a final newline
      at the character before it. */
  lemma TitleTest(line: string)
    ensures NoNewline(line) ==> (IsTitleLine(line) <==> !EndsSentence(line))
    ensures IsTitleLine(line + "\n") <==> !EndsSentence(line)
  {
    if line != [] && NoNewline(line) {
      assert line[|line| - 1] in line;
    }
    var l := line + "\n";
    assert l[|l| - 1] == '\n';
    if line != [] {
      assert l[|l| - 2] == line[|line| - 1];
    }
  }

  /** The parser between two lines: the open topic's title ("" when there is none,
      which the source treats like `None`), its body lines, and the topics closed so far. */
  datatype State = State(title: string, body: seq<string>, topics: seq<Topic>)

  /** The topics once the open one is closed; it is emitted only if it has a title or a body,
      and "Summary" stands in for a missing title. */
  function Close(st: State): seq<Topic> {
    if st.title != "" || st.body != [] then
      st.topics + [Topic(if st.title != "" then st.title else "Summary", Strip(Join(" ", st.body)))]
    else
      st.topics
  }

  /** One line: empty lines are skipped, a title line closes the open topic and opens
      a new one, any other line joins the open topic's body. */
  function Step(st: State, line: string): State {
    if line == "" then st
    else if IsTitleLine(line) then State(Strip(line), [], Close(st))
    else st.(body := st.body + [Strip(line)])
  }

  /** The state after reading `lines`, starting from `st`. */
  function RunFrom(st: State, lines: seq<string>): (r: State)
    ensures IsStripped(st.title) ==> IsStripped(r.title)
  {
    if lines == [] then st
    else Step(RunFrom(st, lines[..|lines| - 1]), lines[|lines| - 1])
  }

  /** No topic open, none closed. */
  const Start := State("", [], [])

  function Run(lines: seq<string>): (st: State)
    ensures IsStripped(st.title)
  {
    RunFrom(Start, lines)
  }

  /** The topics of the lines, in order (what `parse_summary_topics` returns). */
  function SummaryTopics(lines: seq<string>): seq<Topic> {
    Close(Run(lines))
  }

  /** `parse_summary_topics`: one pass over the lines with the open topic in two variables. */
  method ParseSummaryTopics(lines: seq<string>) returns (topics: seq<Topic>)
    ensures topics == SummaryTopics(lines)
  {
    topics := [];
    var title := "";
    var body: seq<string> := [];
    var i := 0;
    while i < |lines|
      invariant 0 <= i <= |lines|
      invariant State(title, body, topics) == Run(lines[..i])
    {
      assert lines[..i + 1][..i] == lines[..i];
      var line := lines[i];
      if line != "" {
        if !EndsWithPunct(line) {
          if title != "" || body != [] {
            topics := topics + [Topic(if title != "" then title else "Summary", Strip(Join(" ", body)))];
          }
          title := Strip(line);
          body := [];
        } else {
          body := body + [Strip(line)];
        }
      }
      i := i + 1;
    }
    assert lines[..i] == lines;
    if title != "" || body != [] {
      topics := topics + [Topic(if title != "" then title else "Summary", Strip(Join(" ", body)))];
    }
  }

  /** No lines, no topics. */
  lemma NoLinesNoTopics()
    ensures SummaryTopics([]) == []
  {
  }

  /** The topics closed so far stay as they are: closing after one more line extends them. */
  lemma StepKeepsTopics(st: State, line: string)
    ensures st.topics <= Step(st, line).topics <= Close(st)
  {
  }

  /** Closing emits one topic exactly when a title or a body is open, and that topic
      always has a title. */
  lemma CloseShape(st: State)
    ensures var r := Close(st);
      st.topics <= r
      && (|r| == |st.topics| + 1 <==> st.title != "" || st.body != [])
      && (|r| == |st.topics| + 1 || r == st.topics)
      && (|r| > |st.topics| ==> r[|st.topics|].title != "")
  {
  }

  /** Every topic has a non-empty, stripped title and a stripped body. */
  lemma {:induction false} TopicShape(lines: seq<string>, j: nat)
    requires j < |SummaryTopics(lines)|
    ensures SummaryTopics(lines)[j].title != "" && IsStripped(SummaryTopics(lines)[j].title)
    ensures IsStripped(SummaryTopics(lines)[j].body)
  {
    var st := Run(lines);
    if j < |st.topics| {
      var n := |lines| - 1;
      StepKeepsTopics(Run(lines[..n]), lines[n]);
      TopicShape(lines[..n], j);
    }
  }

  /** The lines a topic body draws from: the non-empty lines that are not titles. */
  function BodyLines(lines: seq<string>): seq<string> {
    if lines == [] then []
    else
      var n := |lines| - 1;
      BodyLines(lines[..n]) + if lines[n] != "" && !IsTitleLine(lines[n]) then [lines[n]] else []
  }

  /** The title lines, in order. */
  function TitleLines(lines: seq<string>): seq<string> {
    if lines == [] then []
    else
      var n := |lines| - 1;
      TitleLines(lines[..n]) + if lines[n] != "" && IsTitleLine(lines[n]) then [lines[n]] else []
  }

  function Titles(ts: seq<Topic>): (r: seq<string>)
    ensures |r| == |ts|
    ensures forall i :: 0 <= i < |ts| ==> r[i] == ts[i].title
  {
    seq(|ts|, i requires 0 <= i < |ts| => ts[i].title)
  }

  function Bodies(ts: seq<Topic>): (r: seq<string>)
    ensures |r| == |ts|
    ensures forall i :: 0 <= i < |ts| ==> r[i] == ts[i].body
  {
    seq(|ts|, i requires 0 <= i < |ts| => ts[i].body)
  }

  /** Lines as `split_sections` hands them over: stripped and not empty. */
  predicate Clean(lines: seq<string>) {
    forall i :: 0 <= i < |lines| ==> lines[i] != "" && IsStripped(lines[i])
  }

  /** A leading "Summary" topic exists exactly when the first line is body text. */
  function Lead(lines: seq<string>): seq<string> {
    if lines != [] && !IsTitleLine(lines[0]) then ["Summary"] else []
  }

  /** For clean lines, the topic titles are the title lines in order, preceded by
      "Summary" when body text comes before the first title. */
  lemma {:induction false} TopicTitles(lines: seq<string>)
    requires Clean(lines)
    ensures Titles(SummaryTopics(lines)) == Lead(lines) + TitleLines(lines)
  {
    if lines != [] {
      var n := |lines| - 1;
      var init, l := lines[..n], lines[n];
      assert Clean(init);
      TopicTitles(init);
      var st := Run(init);
      assert SummaryTopics(lines) == Close(Step(st, l));
      if n > 0 {
        assert Lead(lines) == Lead(init) by { assert init[0] == lines[0]; }
      }
      if IsTitleLine(l) {
        assert Lead(lines) + TitleLines(lines) == (Lead(init) + TitleLines(init)) + [l] by {
          assert TitleLines(lines) == TitleLines(init) + [l];
          assert Lead(lines) == Lead(init);
        }
        TitleStep(st, l);
      } else {
        assert TitleLines(lines) == TitleLines(init);
        if n > 0 {
          OpenTopic(init);
          BodyStep(st, l);
        }
      }
    }
  }

  /** A clean title line adds a topic named after it. */
  lemma TitleStep(st: State, line: string)
    requires line != "" && IsStripped(line) && IsTitleLine(line)
    ensures Titles(Close(Step(st, line))) == Titles(Close(st)) + [line]
  {
    StrippedIsFixed(line);
    assert Close(Step(st, line)) == Close(st) + [Topic(line, "")];
  }

  /** A body line added to an open topic changes no title. */
  lemma BodyStep(st: State, line: string)
    requires line != "" && !IsTitleLine(line)
    requires st.title != "" || st.body != []
    ensures Titles(Close(Step(st, line))) == Titles(Close(st))
  {
  }

  /** After at least one clean line a topic is open. */
  lemma OpenTopic(lines: seq<string>)
    requires lines != [] && Clean(lines)
    ensures Run(lines).title != "" || Run(lines).body != []
  {
    StrippedIsFixed(lines[|lines| - 1]);
  }

  /** For clean lines there is one topic per title line, plus one when body text comes first. */
  lemma TopicCount(lines: seq<string>)
    requires Clean(lines)
    ensures |SummaryTopics(lines)| == |TitleLines(lines)| + if lines != [] && !IsTitleLine(lines[0]) then 1 else 0
  {
    TopicTitles(lines);
  }

  /** Closing the open topic loses no body text. */
  lemma CloseKeepsText(st: State)
    ensures NonSpace(Concat(Bodies(Close(st)))) == NonSpace(Concat(Bodies(st.topics))) + NonSpace(Concat(st.body))
  {
    var t := Concat(Bodies(st.topics));
    if st.title != "" || st.body != [] {
      var b := Strip(Join(" ", st.body));
      assert Bodies(Close(st)) == Bodies(st.topics) + [b];
      ConcatAppend(Bodies(st.topics), [b]);
      assert Concat([b]) == b;
      NonSpaceAppend(t, b);
      StripKeepsNonSpace(Join(" ", st.body));
      JoinKeepsNonSpace(" ", st.body);
    } else {
      assert NonSpace(Concat(st.body)) == [];
    }
  }

  /** The visible text of the closed topics followed by that of the open body. */
  function Visible(st: State): string {
    NonSpace(Concat(Bodies(st.topics))) + NonSpace(Concat(st.body))
  }

  /** What one more body line adds to a visible text; other lines add nothing. */
  function VisibleOfLine(line: string): string {
    if line != "" && !IsTitleLine(line) then NonSpace(line) else ""
  }

  lemma StepKeepsText(st: State, line: string)
    ensures Visible(Step(st, line)) == Visible(st) + VisibleOfLine(line)
  {
    if line != "" {
      if IsTitleLine(line) {
        CloseKeepsText(st);
      } else {
        var x := Strip(line);
        ConcatAppend(st.body, [x]);
        assert Concat([x]) == x;
        NonSpaceAppend(Concat(st.body), x);
        StripKeepsNonSpace(line);
      }
    }
  }

  lemma {:induction false} BodyLinesSnoc(lines: seq<string>)
    requires lines != []
    ensures NonSpace(Concat(BodyLines(lines)))
      == NonSpace(Concat(BodyLines(lines[..|lines| - 1]))) + VisibleOfLine(lines[|lines| - 1])
  {
    var n := |lines| - 1;
    var l := lines[n];
    var pre := BodyLines(lines[..n]);
    if l != "" && !IsTitleLine(l) {
      assert BodyLines(lines) == pre + [l];
      ConcatAppend(pre, [l]);
      assert Concat([l]) == l;
      NonSpaceAppend(Concat(pre), l);
    } else {
      assert BodyLines(lines) == pre;
    }
  }

  /** The visible text of the closed topics and the open body is that of the body lines read so far. */
  lemma {:induction false} RunKeepsText(lines: seq<string>)
    ensures Visible(Run(lines)) == NonSpace(Concat(BodyLines(lines)))
  {
    if lines != [] {
      var n := |lines| - 1;
      RunKeepsText(lines[..n]);
      StepKeepsText(Run(lines[..n]), lines[n]);
      BodyLinesSnoc(lines);
    }
  }

  /** The topic bodies, read in order, hold exactly the visible characters of the body lines. */
  lemma TopicsKeepText(lines: seq<string>)
    ensures NonSpace(Concat(Bodies(SummaryTopics(lines)))) == NonSpace(Concat(BodyLines(lines)))
  {
    RunKeepsText(lines);
    CloseKeepsText(Run(lines));
  }

  /** Lines that go to a body: not empty and ending in sentence punctuation. */
  predicate AllBodyLines(b: seq<string>) {
    forall i :: 0 <= i < |b| ==> b[i] != "" && !IsTitleLine(b[i])
  }

  /** Reading two blocks of lines is reading the first, then the second. */
  lemma {:induction false} RunFromAppend(st: State, a: seq<string>, b: seq<string>)
    ensures RunFrom(st, a + b) == RunFrom(RunFrom(st, a), b)
  {
    if b == [] {
      assert a + b == a;
    } else {
      var n := |b| - 1;
      assert (a + b)[..|a| + n] == a + b[..n];
      RunFromAppend(st, a, b[..n]);
    }
  }

  /** Body lines only extend the open topic's body. */
  lemma {:induction false} RunBodyLines(st: State, b: seq<string>)
    requires AllBodyLines(b)
    ensures RunFrom(st, b) == st.(body := st.body + StrippedLines(b))
  {
    if b == [] {
      assert st.body + StrippedLines(b) == st.body;
    } else {
      var n := |b| - 1;
      RunBodyLines(st, b[..n]);
      BodyLineStep(RunFrom(st, b[..n]), b[n]);
      assert (st.body + StrippedLines(b[..n])) + [Strip(b[n])] == st.body + StrippedLines(b);
    }
  }

  /** The body lines as the parser keeps them, each stripped. */
  function StrippedLines(b: seq<string>): (r: seq<string>)
    ensures |r| == |b|
  {
    if b == [] then [] else StrippedLines(b[..|b| - 1]) + [Strip(b[|b| - 1])]
  }

  lemma BodyLineStep(st: State, line: string)
    requires line != "" && !IsTitleLine(line)
    ensures Step(st, line) == st.(body := st.body + [Strip(line)])
  {
  }

  /** A title line followed by body lines makes one topic: the stripped title (or "Summary"
      if it strips to nothing) with the stripped body lines joined by spaces; a blank title
      with no body makes none. */
  lemma GroupTopic(t: string, b: seq<string>)
    requires t != "" && IsTitleLine(t) && AllBodyLines(b)
    ensures SummaryTopics([t] + b)
      == if Strip(t) == "" && b == [] then []
         else [Topic(if Strip(t) != "" then Strip(t) else "Summary", Strip(Join(" ", StrippedLines(b))))]
  {
    RunFromAppend(Start, [t], b);
    assert RunFrom(Start, [t]) == State(Strip(t), [], []) by {
      assert [t][..0] == [];
    }
    var st := State(Strip(t), StrippedLines(b), []);
    RunBodyLines(State(Strip(t), [], []), b);
    assert Run([t] + b) == st;
    if Strip(t) != "" || b != [] {
      assert Close(st) == [Topic(if Strip(t) != "" then Strip(t) else "Summary", Strip(Join(" ", StrippedLines(b))))];
    }
  }

  /** Body lines before any title make one topic titled "Summary". */
  lemma LeadTopic(b: seq<string>)
    requires b != [] && AllBodyLines(b)
    ensures SummaryTopics(b) == [Topic("Summary", Strip(Join(" ", StrippedLines(b))))]
  {
    RunBodyLines(Start, b);
    var st := State("", StrippedLines(b), []);
    assert Run(b) == st;
    assert Close(st) == [Topic("Summary", Strip(Join(" ", StrippedLines(b))))];
  }

  /** The topics made so far, placed before those of the parser's state. */
  function WithEarlier(st: State, earlier: seq<Topic>): State {
    st.(topics := earlier + st.topics)
  }

  lemma StepWithEarlier(st: State, earlier: seq<Topic>, line: string)
    ensures Step(WithEarlier(st, earlier), line) == WithEarlier(Step(st, line), earlier)
  {
    assert Close(WithEarlier(st, earlier)) == earlier + Close(st);
  }

  /** Once a title line starts a new topic, the state before it only contributes its closed topics. */
  lemma {:induction false} RunAfterTitle(st: State, g: seq<string>)
    requires g != [] && g[0] != "" && IsTitleLine(g[0])
    ensures RunFrom(st, g) == WithEarlier(Run(g), Close(st))
  {
    var n := |g| - 1;
    if n == 0 {
      assert g[..0] == [];
      assert RunFrom(st, g) == State(Strip(g[0]), [], Close(st));
      assert RunFrom(Start, g[..0]) == Start;
      assert Run(g) == RunFrom(Start, g) == Step(Start, g[0]);
      assert Close(Start) == [];
      assert Close(st) + [] == Close(st);
    } else {
      assert g[..n][0] == g[0];
      RunAfterTitle(st, g[..n]);
      StepWithEarlier(Run(g[..n]), Close(st), g[n]);
    }
  }

  /** Topics split where a title line starts: those of the lines before, then those of the rest. */
  lemma TopicsAppend(a: seq<string>, g: seq<string>)
    requires g != [] && g[0] != "" && IsTitleLine(g[0])
    ensures SummaryTopics(a + g) == SummaryTopics(a) + SummaryTopics(g)
  {
    RunFromAppend(Start, a, g);
    RunAfterTitle(Run(a), g);
    assert Close(WithEarlier(Run(g), SummaryTopics(a))) == SummaryTopics(a) + SummaryTopics(g);
  }

  lemma {:induction false} CleanLinesUnchanged(b: seq<string>)
    requires Clean(b)
    ensures StrippedLines(b) == b
  {
    if b != [] {
      var n := |b| - 1;
      assert Clean(b[..n]);
      CleanLinesUnchanged(b[..n]);
      StrippedIsFixed(b[n]);
    }
  }

  /** For lines as `split_sections` hands them over, a body is its lines joined by single spaces. */
  lemma CleanBody(b: seq<string>)
    requires Clean(b)
    ensures Strip(Join(" ", StrippedLines(b))) == Join(" ", b)
  {
    CleanLinesUnchanged(b);
    JoinStripped(" ", b);
    StrippedIsFixed(Join(" ", b));
  }

  predicate TopicListWithoutNewline(ts: seq<Topic>) {
    forall i :: 0 <= i < |ts| ==> NoNewline(ts[i].title) && NoNewline(ts[i].body)
  }

  predicate StateWithoutNewline(st: State) {
    NoNewline(st.title) && LinesWithoutNewline(st.body) && TopicListWithoutNewline(st.topics)
  }

  lemma CloseWithoutNewline(st: State)
    requires StateWithoutNewline(st)
    ensures TopicListWithoutNewline(Close(st))
  {
    JoinWithoutNewline(" ", st.body);
    StrippedWithoutNewline(Join(" ", st.body));
    assert NoNewline("Summary");
  }

  lemma StepWithoutNewline(st: State, line: string)
    requires StateWithoutNewline(st) && NoNewline(line)
    ensures StateWithoutNewline(Step(st, line))
  {
    StrippedWithoutNewline(line);
    CloseWithoutNewline(st);
  }

  lemma {:induction false} RunWithoutNewline(lines: seq<string>)
    requires LinesWithoutNewline(lines)
    ensures StateWithoutNewline(Run(lines))
  {
    if lines != [] {
      var n := |lines| - 1;
      assert LinesWithoutNewline(lines[..n]);
      RunWithoutNewline(lines[..n]);
      StepWithoutNewline(Run(lines[..n]), lines[n]);
    }
  }

  /** Topics read from lines without line breaks hold none. */
  lemma TopicsWithoutNewline(lines: seq<string>)
    requires LinesWithoutNewline(lines)
    ensures TopicListWithoutNewline(SummaryTopics(lines))
  {
    RunWithoutNewline(lines);
    CloseWithoutNewline(Run(lines));
  }
}
