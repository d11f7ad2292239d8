# Zoom summary to meeting-log converter, modelled in Dafny

`zoom_summary_to_agenda.py` turns the plain-text meeting summary that Zoom's AI
assistant writes into one Markdown section of a supervision meeting log. It:

1. splits the text into lines, strips each line, and files every line that follows a
   recognised section header ("Quick recap", "Next steps"/"Actions", "Summary", with or
   without a trailing colon, in any capitalisation) under that section. Lines before the
   first header are dropped.
2. parses each section:
   - recap lines are cut into sentences after '.', '!' or '?' followed by whitespace;
   - next-steps lines are read as `owner: action` pairs. The owner defaults to "TBD",
     and a line with no action is skipped;
   - summary lines are grouped into topics. A line that does not end in sentence
     punctuation opens a topic, and the lines after it form its body. Body text before
     the first title forms a topic titled "Summary".
3. renders the Markdown section. It has a heading, the meeting details taken from the
   command-line options, an agenda of topic titles, discussion notes, an action table
   and a follow-up note. The lines are joined by newlines.

The model has one module per stage:
- `Text`: Python's `strip`, `lower`, `join` and `splitlines`.
- `Sections`: the header table and `split_sections`.
- `Recap`: sentence splitting and `parse_quick_recap`.
- `Actions`: `parse_action_items`.
- `Topics`: `parse_summary_topics`.
- `Parser`: `parse_summary`.
- `Formatter`: the formatters and `build_markdown`.

The source's loops become methods with loop invariants, each proved equal to a
specification function. The properties of the converter are proved as lemmas about those
functions. The main properties are:
- header lookup ignores case;
- no input line is lost or duplicated when bucketing;
- sentence splitting keeps every visible character in order;
- action items split at the first colon only;
- topic titles are exactly the title lines;
- the layout of the generated section;
- the end-to-end round trip. Splitting the generated Markdown back into lines gives the
  rendered lines for any input text, because no parsed field can contain a line break.

## Model

| member | source | states |
|---|---|---|
| Sections.Lookup | zoom_summary_to_agenda.py:71 | the dictionary lookup finds a section exactly when some entry has that name, and the section it returns is that entry's |
| Sections.TableNamesUnique | zoom_summary_to_agenda.py:27-38 | no alias appears twice in the header table, so the association list behaves as the source's dictionary |
| Sections.LookupFinds | zoom_summary_to_agenda.py:27-38 | in a table without repeated names, looking up an entry's name gives that entry's section |
| Sections.CanonicalHeaders | zoom_summary_to_agenda.py:27-38 | a line whose lower-cased text is a canonical section name, with or without a colon, opens that section |
| Sections.HeaderKeyIgnoresCase | zoom_summary_to_agenda.py:71 | header matching lower-cases the line first, so any capitalisation of a header opens the same section |
| Sections.HeaderLookup | zoom_summary_to_agenda.py:71 | a line opens section k exactly when its lower-cased form is listed for k in the alias table, and it is no header exactly when the table does not list it |
| Text.Strip | zoom_summary_to_agenda.py:59-60 | the result is the slice of the line between its leading and trailing whitespace, and it neither starts nor ends with whitespace |
| Text.StripKeepsNonSpace | zoom_summary_to_agenda.py:59-60 | stripping never loses a visible character |
| Text.StripEmptyIffAllSpace | zoom_summary_to_agenda.py:69 | a line strips to nothing exactly when it is all whitespace, which is when it is skipped |
| Text.StrippedIsFixed | zoom_summary_to_agenda.py:130 | stripping an already stripped line changes nothing |
| Sections.Classify | zoom_summary_to_agenda.py:68-74 | a line is blank iff it strips to nothing; a header carries the section its stripped text looks up to; content is the stripped, non-empty, non-header text |
| Sections.SplitSections | zoom_summary_to_agenda.py:63-79 | the loop fills each of the three sections with exactly the lines the specification function collects for it |
| Sections.BucketSnoc | zoom_summary_to_agenda.py:72-77 | one more line: a header switches the current section, and a content line is appended to the current section only |
| Sections.BucketSource | zoom_summary_to_agenda.py:75-77 | every line of a section comes from an input content line that follows a header for that section |
| Sections.BucketComplete | zoom_summary_to_agenda.py:75-77 | every content line following a header for a section lands in that section |
| Sections.BucketLinesAreContent | zoom_summary_to_agenda.py:68-77 | collected lines are stripped, non-empty, not headers, and each is the stripped form of some input line |
| Sections.PreambleDiscarded | zoom_summary_to_agenda.py:75-76 | lines before the first header change no section |
| Sections.NoHeaderNoActiveKey | zoom_summary_to_agenda.py:65 | without a header no section is ever current |
| Sections.BucketOrder | zoom_summary_to_agenda.py:67-77 | input order is kept: the sections built from a prefix of the input are prefixes of the final sections |
| Sections.BucketCount | zoom_summary_to_agenda.py:67-77 | a section holds exactly as many lines as there are input content lines under a header for it: with BucketSource and BucketComplete, none is lost and none is filed twice |
| Sections.BucketsBounded | zoom_summary_to_agenda.py:67-77 | the three sections together hold no more lines than the input, so no line is filed twice |
| Sections.BucketWithoutNewline | zoom_summary_to_agenda.py:68-77 | collected lines contain no line break when the input lines contain none |
| Recap.SplitAtSentenceEnds | zoom_summary_to_agenda.py:82 | there is at least one piece; the first piece is a prefix of the text; a split into one piece leaves the text whole |
| Recap.SplitUnbroken | zoom_summary_to_agenda.py:82 | a text without a split point is not cut: the split is the text itself |
| Recap.SplitRejoins | zoom_summary_to_agenda.py:82 | the split removes only whole whitespace runs: putting one non-empty whitespace run back between each two pieces gives the text, and no piece after the first starts with whitespace |
| Recap.SplitPieceNoBreak | zoom_summary_to_agenda.py:82 | no piece contains a split point (sentence punctuation directly followed by whitespace) |
| Recap.SplitPieceEnds | zoom_summary_to_agenda.py:82 | every piece but the last ends in '.', '!' or '?' |
| Recap.SplitKeepsText | zoom_summary_to_agenda.py:82 | the pieces together hold the paragraph's visible characters, in order |
| Recap.SentencesFromParagraph | zoom_summary_to_agenda.py:85-87 | a paragraph always yields at least one sentence |
| Recap.SentencesNonEmpty | zoom_summary_to_agenda.py:86-87 | blank pieces are filtered out: no sentence is empty, except the single "" of a blank paragraph |
| Recap.UnbrokenParagraph | zoom_summary_to_agenda.py:85-87 | a paragraph without a split point gives one sentence, the stripped paragraph |
| Recap.BlankParagraph | zoom_summary_to_agenda.py:86-87 | when no piece has a visible character, the fallback gives the one empty sentence |
| Recap.SentencesRejoin | zoom_summary_to_agenda.py:85-87 | the paragraph is its sentences with only whitespace taken out: leading and trailing whitespace, and one non-empty whitespace run between each two neighbouring sentences |
| Recap.SentencesKeepText | zoom_summary_to_agenda.py:85-87 | the sentences hold exactly the paragraph's visible characters, in order |
| Recap.SentenceShape | zoom_summary_to_agenda.py:85-87 | each sentence is stripped and holds no split point, and every sentence but the last ends in sentence punctuation |
| Recap.SurvivingPieces | zoom_summary_to_agenda.py:86 | only the last stripped piece can be blank, so the filter drops at most that one |
| Recap.ParseQuickRecap | zoom_summary_to_agenda.py:90-94 | the loop returns the sentences of each line, line after line, and at least one sentence per line |
| Recap.RecapAppend | zoom_summary_to_agenda.py:92-93 | the recap of two blocks of lines is the recap of the first followed by that of the second |
| Recap.RecapLength | zoom_summary_to_agenda.py:92-93 | every recap line contributes at least one sentence |
| Recap.RecapKeepsText | zoom_summary_to_agenda.py:90-94 | the recap keeps every visible character of its lines, in order |
| Recap.RecapWithoutNewline | zoom_summary_to_agenda.py:90-94 | sentences of lines without line breaks contain none |
| Actions.IndexOf | zoom_summary_to_agenda.py:101 | the index found is that of the first ':' of the line |
| Actions.OwnerAndAction | zoom_summary_to_agenda.py:100-106 | a line splits at its first colon into a stripped owner without ':' and a stripped action; without a colon there is no owner |
| Actions.ParseActionLine | zoom_summary_to_agenda.py:100-109 | an item read from a line has a non-empty stripped action and a non-empty stripped owner without ':' |
| Actions.SplitAtFirstColon | zoom_summary_to_agenda.py:100-109 | a line `owner:action` splits at its first colon; the item is dropped when the action strips to nothing, and an empty owner becomes "TBD" |
| Actions.LineWithoutColon | zoom_summary_to_agenda.py:104-109 | a line without a colon is all action with owner "TBD", and is dropped when blank |
| Actions.ParseActionItems | zoom_summary_to_agenda.py:97-110 | the loop returns the items the lines yield, in line order, and never more items than lines |
| Actions.ActionItemsAppend | zoom_summary_to_agenda.py:99-109 | the items of two blocks of lines are those of the first followed by those of the second |
| Actions.ActionItemSource | zoom_summary_to_agenda.py:99-109 | every item comes from one line that parses to it |
| Actions.ActionItemComplete | zoom_summary_to_agenda.py:99-109 | every line that parses to an item contributes it |
| Actions.ActionItemsWithoutNewline | zoom_summary_to_agenda.py:99-109 | items read from lines without line breaks contain none |
| Topics.TitleTest | zoom_summary_to_agenda.py:121 | a line without a line break is a title exactly when it does not end in '.', '!' or '?'; past a final newline the character before it is tested, as `$` does |
| Topics.CloseShape | zoom_summary_to_agenda.py:123-129 | closing keeps the topics closed so far and adds one topic exactly when a title or a body is open; that topic always has a title |
| Topics.RunFrom | zoom_summary_to_agenda.py:118-134 | walking lines from a state whose title is stripped keeps the title stripped |
| Topics.ParseSummaryTopics | zoom_summary_to_agenda.py:113-144 | the loop returns the topics of the specification function: the state after the lines, closed |
| Topics.NoLinesNoTopics | zoom_summary_to_agenda.py:136-144 | an empty summary section gives no topic |
| Topics.StepKeepsTopics | zoom_summary_to_agenda.py:118-131 | a line never removes or changes a topic already closed, and the topics after it are a prefix of those closing before it would give |
| Topics.TopicShape | zoom_summary_to_agenda.py:123-142 | every topic has a non-empty stripped title and a stripped body |
| Topics.TopicTitles | zoom_summary_to_agenda.py:113-144 | the topic titles are the title lines in order, preceded by "Summary" when the first line is body text |
| Topics.TopicCount | zoom_summary_to_agenda.py:113-144 | there is one topic per title line, plus one when the section starts with body text |
| Topics.TopicsKeepText | zoom_summary_to_agenda.py:113-144 | the topic bodies together hold exactly the visible characters of the body lines, in order |
| Topics.RunFromAppend | zoom_summary_to_agenda.py:118 | walking two blocks of lines is walking the first, then the second from where the first left off |
| Topics.GroupTopic | zoom_summary_to_agenda.py:122-142 | a title line followed by body lines gives one topic with that title and the joined, stripped body |
| Topics.LeadTopic | zoom_summary_to_agenda.py:134-142 | body lines with no title before them give one topic titled "Summary" |
| Topics.TopicsAppend | zoom_summary_to_agenda.py:122-131 | a title line closes everything before it: the topics of two blocks split at a title line are those of each block |
| Topics.CleanBody | zoom_summary_to_agenda.py:127 | for stripped, non-empty body lines, joining with spaces and stripping is just joining |
| Topics.TopicsWithoutNewline | zoom_summary_to_agenda.py:113-144 | topics read from lines without line breaks contain none |
| Parser.ParseSummary | zoom_summary_to_agenda.py:147-159 | whatever the text, no parsed sentence, owner, action, title or body contains a line break |
| Parser.EmptySummary | zoom_summary_to_agenda.py:147-159 | an empty text parses to an empty recap, no action items and no topics |
| Parser.NoHeaderNothingParsed | zoom_summary_to_agenda.py:147-159 | a text without a header line parses to nothing |
| Parser.PreambleIgnored | zoom_summary_to_agenda.py:147-159 | adding header-free lines before a summary does not change its parse |
| Parser.ParsedRecap | zoom_summary_to_agenda.py:151 | the recap holds the recap section's visible characters in order, with at least one sentence per line |
| Parser.ParsedActions | zoom_summary_to_agenda.py:152 | every parsed action item has an owner and an action, and comes from one line of the next-steps section |
| Parser.ParsedTopicTitles | zoom_summary_to_agenda.py:153 | the topic titles are the summary section's title lines, preceded by "Summary" when it starts with body text |
| Parser.ParseLinesWithoutNewline | zoom_summary_to_agenda.py:149-159 | lines without line breaks parse to parts without line breaks |
| Text.SplitLinesJoin | zoom_summary_to_agenda.py:148 | a text is its lines joined by newlines, plus a final newline if it had one |
| Text.SplitLinesOfJoin | zoom_summary_to_agenda.py:148 | splitting lines without line breaks, joined by newlines with a final empty line, gives those lines back |
| Formatter.FormatAgenda | zoom_summary_to_agenda.py:162-165 | one bullet per topic title, in topic order, or the single default bullet when there is no topic |
| Formatter.FormatDiscussionNotes | zoom_summary_to_agenda.py:168-181 | the loop returns the recap note (if any recap), then one note per topic, and the pending note when both are empty |
| Formatter.DiscussionCount | zoom_summary_to_agenda.py:168-181 | the note count is one per topic plus one for a recap, or one when there is neither |
| Formatter.PendingIffNothing | zoom_summary_to_agenda.py:179-180 | the notes are just the pending note exactly when there is neither a recap nor a topic |
| Formatter.NotesContainParts | zoom_summary_to_agenda.py:170-178 | the recap note holds the sentences joined by "; ", and each topic's note follows in topic order |
| Formatter.FormatActionTable | zoom_summary_to_agenda.py:184-194 | the loop returns the table of the specification function |
| Formatter.TableShape | zoom_summary_to_agenda.py:184-194 | the table is the two header rows and then one row per item, or the "no items" row when there are none |
| Formatter.NoItemsRowIffEmpty | zoom_summary_to_agenda.py:189-193 | the "no items" row appears exactly when there are no items; no item row can look like it |
| Formatter.DefaultsAgree | zoom_summary_to_agenda.py:198-212 | missing options and the command-line defaults render the same section, with the documented fallback labels and follow-up note |
| Formatter.ConnectionShown | zoom_summary_to_agenda.py:198-204 | a connection other than "TBD" is shown after the time, separated by " — "; the time is shown alone exactly when the connection is missing or "TBD" |
| Formatter.HeaderFields | zoom_summary_to_agenda.py:198-222 | each meeting detail and the follow-up note show the option when it is given and the placeholder otherwise; the attendees fall back to the student, then to "TBD" |
| Formatter.BuildMarkdown | zoom_summary_to_agenda.py:214-238 | the generated text always ends with a newline |
| Formatter.MarkdownFrame | zoom_summary_to_agenda.py:214-236 | the section opens with the heading and the meeting details and closes with the follow-up block |
| Formatter.MarkdownLayout | zoom_summary_to_agenda.py:209-236 | the agenda, notes and table sit under their headings, in that order, followed by the follow-up heading |
| Formatter.MarkdownRoundTrip | zoom_summary_to_agenda.py:238 | for parts and options without line breaks, splitting the generated text into lines gives back the section's lines |
| Formatter.SummaryRoundTrip | zoom_summary_to_agenda.py:147-238 | for any summary text and options without line breaks, the generated Markdown splits back into exactly the rendered lines |

## Left out

- `load_text`, `main` and the output writing (`zoom_summary_to_agenda.py:52-56`, `258-271`):
  file and stream I/O and their error exits are not modelled. The model starts from the text and ends with the generated string.
- `parse_args` (`zoom_summary_to_agenda.py:241-255`): argument parsing is not modelled.
  The parsed options are an `Options` record in which an absent option is "".
  `Formatter.CommandLineDefaults` records the declared defaults.
- Python regular expressions are modelled by the specific splitting and matching they
  perform here, not by a regex engine.
- Whitespace is the ASCII set that `str.isspace()` accepts. Non-ASCII whitespace
  (such as U+00A0 or U+2028) is not treated as whitespace.
- `Text.SplitLines` splits only at '\n'. `str.splitlines()` also splits at '\r', "\r\n",
  '\x0b', '\x0c', '\x1c'-'\x1e', U+0085, U+2028 and U+2029.
  - For "\r\n" input this changes nothing, because every line is stripped before use.
  - A line holding one of the other boundaries is kept as one line in the model.
- `Text.Lower` lower-cases ASCII letters only. The header aliases are ASCII, so the only
  text it can mis-match is a non-ASCII letter whose Python lower-case form is an ASCII
  letter (the Kelvin sign U+212A).
- `Formatter.SummaryRoundTrip` and `Formatter.MarkdownRoundTrip` hold only for options
  without line breaks. An option value containing '\n' makes the generated text split
  into more lines than were rendered.
- The provisioning script named in the module docstring, `setup_postgrad_drive.sh`, is
  not part of this model.
