/**
 * Reading "Next steps" lines as `owner: action` pairs (`parse_action_items`).
 */
module Actions {
  import opened Text
  import opened Wrappers

  /** One row of the action table; the source keeps it as an `(owner, action)` tuple. */
  datatype ActionItem = ActionItem(owner: string, action: string)

  /** The index of the first occurrence of `c` in `s`. */
  function IndexOf(s: string, c: char): (i: nat)
    requires c in s
    ensures i < |s| && s[i] == c && c !in s[..i]
  {
    if s[0] == c then 0 else 1 + IndexOf(s[1..], c)
  }

  /** The line split at its first ':' into a stripped owner and action;
      a line without ':' has no owner and is all action. */
  function OwnerAndAction(line: string): (r: (string, string))
    ensures IsStripped(r.0) && ':' !in r.0 && IsStripped(r.1)
  {
    if ':' in line then
      var i := IndexOf(line, ':');
      StrippedWithout(line[..i], ':');
      (Strip(line[..i]), Strip(line[i + 1..]))
    else
      ("", Strip(line))
  }

  /** What one line contributes: no action means no item, and an empty owner becomes "TBD". */
  function ParseActionLine(line: string): (r: Option<ActionItem>)
    ensures r.Some? ==> r.value.action != "" && IsStripped(r.value.action)
    ensures r.Some? ==> r.value.owner != "" && IsStripped(r.value.owner) && ':' !in r.value.owner
  {
    var (owner, action) := OwnerAndAction(line);
    if action == "" then None
    else Some(ActionItem(if owner != "" then owner else "TBD", action))
  }

  lemma IndexOfFirst(o: string, a: string)
    requires ':' !in o
    ensures ':' in o + ":" + a && IndexOf(o + ":" + a, ':') == |o|
  {
    var s := o + ":" + a;
    assert s[|o|] == ':';
  }

  /** A line `owner: action` splits at its first ':' only; the action may itself hold colons. */
  lemma SplitAtFirstColon(o: string, a: string)
    requires ':' !in o
    ensures ParseActionLine(o + ":" + a)
      == if Strip(a) == "" then None
         else Some(ActionItem(if Strip(o) != "" then Strip(o) else "TBD", Strip(a)))
  {
    var s := o + ":" + a;
    IndexOfFirst(o, a);
    assert s[..|o|] == o && s[|o| + 1..] == a;
  }

  /** A line without ':' is all action, owned by "TBD"; a blank one is dropped. */
  lemma LineWithoutColon(line: string)
    requires ':' !in line
    ensures ParseActionLine(line) == if Strip(line) == "" then None else Some(ActionItem("TBD", Strip(line)))
  {
  }

  /** The values `f` yields for the lines, in line order; lines it maps to `None` are skipped. */
  function Collect<T>(f: string -> Option<T>, lines: seq<string>): seq<T> {
    if lines == [] then []
    else
      var n := |lines| - 1;
      Collect(f, lines[..n]) + match f(lines[n]) case Some(x) => [x] case None => []
  }

  /** The items of all lines, in line order (what `parse_action_items` returns). */
  function ActionItems(lines: seq<string>): seq<ActionItem> {
    Collect(ParseActionLine, lines)
  }

  /** `parse_action_items`: appends one item per line that has an action. */
  method ParseActionItems(lines: seq<string>) returns (items: seq<ActionItem>)
    ensures items == ActionItems(lines)
    ensures |items| <= |lines|
  {
    items := [];
    var i := 0;
    while i < |lines|
      invariant 0 <= i <= |lines|
      invariant items == ActionItems(lines[..i])
      invariant |items| <= i
    {
      CollectSnoc(ParseActionLine, lines, i);
      var line := lines[i];
      var owner, action;
      if ':' in line {
        var colon := IndexOf(line, ':');
        owner := Strip(line[..colon]);
        action := Strip(line[colon + 1..]);
      } else {
        owner := "";
        action := Strip(line);
      }
      assert OwnerAndAction(line) == (owner, action);
      assert ParseActionLine(line) == if action == "" then None else Some(ActionItem(if owner != "" then owner else "TBD", action));
      if action != "" {
        items := items + [ActionItem(if owner != "" then owner else "TBD", action)];
      }
      i := i + 1;
    }
    assert lines[..i] == lines;
  }

  lemma CollectSnoc<T>(f: string -> Option<T>, lines: seq<string>, i: nat)
    requires i < |lines|
    ensures Collect(f, lines[..i + 1]) == Collect(f, lines[..i]) + match f(lines[i]) case Some(x) => [x] case None => []
  {
    assert lines[..i + 1][..i] == lines[..i];
  }

  /** Line order is kept: the items of two blocks of lines are those of the first, then those of the second. */
  lemma ActionItemsAppend(a: seq<string>, b: seq<string>)
    ensures ActionItems(a + b) == ActionItems(a) + ActionItems(b)
  {
    CollectAppend(ParseActionLine, a, b);
  }

  lemma {:induction false} CollectAppend<T>(f: string -> Option<T>, a: seq<string>, b: seq<string>)
    ensures Collect(f, a + b) == Collect(f, a) + Collect(f, b)
  {
    if b == [] {
      assert a + b == a;
    } else {
      var n := |b| - 1;
      assert (a + b)[..|a| + n] == a + b[..n];
      CollectAppend(f, a, b[..n]);
    }
  }

  /** Every item comes from some line, and every line with an action yields its item. */
  lemma ActionItemSource(lines: seq<string>, x: ActionItem) returns (i: nat)
    requires x in ActionItems(lines)
    ensures i < |lines| && ParseActionLine(lines[i]) == Some(x)
  {
    i := CollectSource(ParseActionLine, lines, x);
  }

  lemma ActionItemComplete(lines: seq<string>, i: nat)
    requires i < |lines| && ParseActionLine(lines[i]).Some?
    ensures ParseActionLine(lines[i]).value in ActionItems(lines)
  {
    CollectComplete(ParseActionLine, lines, i);
  }

  lemma {:induction false} CollectSource<T>(f: string -> Option<T>, lines: seq<string>, x: T) returns (i: nat)
    requires x in Collect(f, lines)
    ensures i < |lines| && f(lines[i]) == Some(x)
  {
    var n := |lines| - 1;
    if x in Collect(f, lines[..n]) {
      i := CollectSource(f, lines[..n], x);
    } else {
      i := n;
    }
  }

  lemma {:induction false} CollectComplete<T>(f: string -> Option<T>, lines: seq<string>, i: nat)
    requires i < |lines| && f(lines[i]).Some?
    ensures f(lines[i]).value in Collect(f, lines)
  {
    var n := |lines| - 1;
    if i < n {
      assert lines[..n][i] == lines[i];
      CollectComplete(f, lines[..n], i);
    }
  }

  /** An item read from a line without line breaks holds none. */
  lemma ActionLineWithoutNewline(line: string)
    requires NoNewline(line) && ParseActionLine(line).Some?
    ensures NoNewline(ParseActionLine(line).value.owner) && NoNewline(ParseActionLine(line).value.action)
  {
    if ':' in line {
      var i := IndexOf(line, ':');
      SliceWithoutNewline(line, 0, i);
      SliceWithoutNewline(line, i + 1, |line|);
      StrippedWithoutNewline(line[..i]);
      StrippedWithoutNewline(line[i + 1..]);
    } else {
      StrippedWithoutNewline(line);
    }
  }

  lemma ActionItemsWithoutNewline(lines: seq<string>)
    requires LinesWithoutNewline(lines)
    ensures forall j :: 0 <= j < |ActionItems(lines)| ==>
      NoNewline(ActionItems(lines)[j].owner) && NoNewline(ActionItems(lines)[j].action)
  {
    forall j | 0 <= j < |ActionItems(lines)|
      ensures NoNewline(ActionItems(lines)[j].owner) && NoNewline(ActionItems(lines)[j].action)
    {
      var i := ActionItemSource(lines, ActionItems(lines)[j]);
      ActionLineWithoutNewline(lines[i]);
    }
  }
}
