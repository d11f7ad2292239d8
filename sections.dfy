/**
 * Bucketing the lines of a Zoom summary under its three canonical headers
 * (`SECTION_NAMES` and `split_sections`).
 */
module Sections {
  import opened Text
  import opened Wrappers

  /** The three canonical sections: "quick recap", "next steps" and "summary". */
  datatype SectionKey = QuickRecap | NextSteps | Summary

  /** The alias table: lower-cased header line to canonical section. */
  const SectionNames: seq<(string, SectionKey)> := [
    ("quick recap", QuickRecap),
    ("quick recap:", QuickRecap),
    ("recap", QuickRecap),
    ("recap:", QuickRecap),
    ("next steps", NextSteps),
    ("next steps:", NextSteps),
    ("actions", NextSteps),
    ("actions:", NextSteps),
    ("summary", Summary),
    ("summary:", Summary)
  ]

  /** Dictionary lookup in an association list: the section of the first entry named `name`. */
  function Lookup(table: seq<(string, SectionKey)>, name: string): (r: Option<SectionKey>)
    ensures r.Some? <==> exists i :: 0 <= i < |table| && table[i].0 == name
    ensures r.Some? ==> exists i :: 0 <= i < |table| && table[i] == (name, r.value)
  {
    if table == [] then None
    else if table[0].0 == name then Some(table[0].1)
    else Lookup(table[1..], name)
  }

  /** The section a (stripped) line opens, if it is a header; matching ignores case. */
  function HeaderKey(line: string): Option<SectionKey> {
    Lookup(SectionNames, Lower(line))
  }

  /** Header matching ignores case: a header line written in capitals opens the same section. */
  lemma HeaderKeyIgnoresCase(line: string)
    ensures HeaderKey(Lower(line)) == HeaderKey(line)
  {
    assert Lower(Lower(line)) == Lower(line);
  }

  /** No name appears twice in the table, so it reads as the source's dictionary. */
  lemma TableNamesUnique()
    ensures forall i, j :: 0 <= i < j < |SectionNames| ==> SectionNames[i].0 != SectionNames[j].0
  {
  }

  /** Each entry of a table without repeated names is what a lookup of its name finds. */
  lemma {:induction false} LookupFinds(table: seq<(string, SectionKey)>, i: nat)
    requires i < |table|
    requires forall a, b :: 0 <= a < b < |table| ==> table[a].0 != table[b].0
    ensures Lookup(table, table[i].0) == Some(table[i].1)
  {
    if i > 0 {
      assert table[0].0 != table[i].0;
      LookupFinds(table[1..], i - 1);
    }
  }

  /** A line opens section `k` exactly when its lower-cased form is listed for `k` in the
      alias table, and it is no header exactly when the table does not list it at all. */
  lemma HeaderLookup(line: string, k: SectionKey)
    ensures HeaderKey(line) == Some(k) <==> (Lower(line), k) in SectionNames
    ensures HeaderKey(line).None? <==> forall i :: 0 <= i < |SectionNames| ==> SectionNames[i].0 != Lower(line)
  {
    var l := Lower(line);
    if (l, k) in SectionNames {
      var i :| 0 <= i < |SectionNames| && SectionNames[i] == (l, k);
      TableNamesUnique();
      LookupFinds(SectionNames, i);
    }
  }

  /** The canonical name and its colon form open their section, in any capitalisation. */
  lemma CanonicalHeaders(line: string, k: SectionKey)
    requires Lower(line) == Name(k) || Lower(line) == Name(k) + ":"
    ensures HeaderKey(line) == Some(k)
  {
    var l := Lower(line);
    TableNamesUnique();
    var i: nat := match k case QuickRecap => 0 case NextSteps => 4 case Summary => 8;
    if l != Name(k) {
      assert l == Name(k) + ":";
      i := i + 1;
    }
    assert SectionNames[i].0 == l && SectionNames[i].1 == k;
    LookupFinds(SectionNames, i);
  }

  function Name(k: SectionKey): string {
    match k
    case QuickRecap => "quick recap"
    case NextSteps => "next steps"
    case Summary => "summary"
  }

  /** The lines collected for each section; the source's dictionary always has exactly these three keys. */
  datatype Sections = Sections(quickRecap: seq<string>, nextSteps: seq<string>, summary: seq<string>)
  {
    function Get(k: SectionKey): seq<string> {
      match k
      case QuickRecap => quickRecap
      case NextSteps => nextSteps
      case Summary => summary
    }

    function Append(k: SectionKey, line: string): (r: Sections)
      ensures r.Get(k) == Get(k) + [line]
      ensures forall j :: j != k ==> r.Get(j) == Get(j)
    {
      match k
      case QuickRecap => this.(quickRecap := quickRecap + [line])
      case NextSteps => this.(nextSteps := nextSteps + [line])
      case Summary => this.(summary := summary + [line])
    }
  }

  /** What `split_sections` makes of one raw line once it is stripped. */
  datatype LineKind = Blank | Header(key: SectionKey) | Content(text: string)

  function Classify(raw: string): (r: LineKind)
    ensures r.Blank? <==> Strip(raw) == ""
    ensures r.Header? ==> HeaderKey(Strip(raw)) == Some(r.key)
    ensures r.Content? ==> r.text == Strip(raw) && r.text != "" && IsStripped(r.text) && HeaderKey(r.text).None?
  {
    var l := Strip(raw);
    if l == "" then Blank
    else match HeaderKey(l)
      case Some(k) => Header(k)
      case None => Content(l)
  }

  function Kinds(lines: seq<string>): (ks: seq<LineKind>)
    ensures |ks| == |lines|
    ensures forall i :: 0 <= i < |lines| ==> ks[i] == Classify(lines[i])
  {
    seq(|lines|, i requires 0 <= i < |lines| => Classify(lines[i]))
  }

  /** The section in force after `ks`: the one opened by the last header among them. */
  function ActiveKey(ks: seq<LineKind>): Option<SectionKey> {
    if ks == [] then None
    else if ks[|ks| - 1].Header? then Some(ks[|ks| - 1].key)
    else ActiveKey(ks[..|ks| - 1])
  }

  /** Line `i` is content of section `k`: neither blank nor a header,
      and the last header before it opened `k`. */
  predicate Kept(ks: seq<LineKind>, i: int, k: SectionKey)
    requires 0 <= i < |ks|
  {
    ks[i].Content? && ActiveKey(ks[..i]) == Some(k)
  }

  /** The content lines of section `k`, in input order. */
  function Bucket(ks: seq<LineKind>, k: SectionKey): seq<string> {
    if ks == [] then []
    else
      var n := |ks| - 1;
      Bucket(ks[..n], k) + (if Kept(ks, n, k) then [ks[n].text] else [])
  }

  /** `split_sections`: walks the lines once, remembering the current section. */
  method SplitSections(lines: seq<string>) returns (sections: Sections)
    ensures forall k :: sections.Get(k) == Bucket(Kinds(lines), k)
  {
    sections := Sections([], [], []);
    var current: Option<SectionKey> := None;
    var i := 0;
    while i < |lines|
      invariant 0 <= i <= |lines|
      invariant current == ActiveKey(Kinds(lines[..i]))
      invariant forall k :: sections.Get(k) == Bucket(Kinds(lines[..i]), k)
    {
      KindsSnoc(lines, i);
      LineStep(Kinds(lines[..i]), lines[i]);
      var line := Strip(lines[i]);
      if line != "" {
        var key := HeaderKey(line);
        if key.Some? {
          current := key;
        } else if current.Some? {
          sections := sections.Append(current.value, line);
        }
      }
      i := i + 1;
    }
    assert lines[..i] == lines;
  }

  /** What one raw line does to the current section and to the sections, by the cases the loop tests. */
  lemma LineStep(ks: seq<LineKind>, raw: string)
    ensures var line, ks' := Strip(raw), ks + [Classify(raw)];
      (line == "" || HeaderKey(line).Some? ==> forall k :: Bucket(ks', k) == Bucket(ks, k))
      && (line == "" ==> ActiveKey(ks') == ActiveKey(ks))
      && (line != "" && HeaderKey(line).Some? ==> ActiveKey(ks') == HeaderKey(line))
      && (line != "" && HeaderKey(line).None? ==>
            ActiveKey(ks') == ActiveKey(ks)
            && forall k :: Bucket(ks', k) == Bucket(ks, k) + (if ActiveKey(ks) == Some(k) then [line] else []))
  {
    BucketSnoc(ks, Classify(raw));
  }

  lemma KindsSnoc(lines: seq<string>, i: nat)
    requires i < |lines|
    ensures Kinds(lines[..i + 1]) == Kinds(lines[..i]) + [Classify(lines[i])]
  {
  }

  lemma KindsAppend(a: seq<string>, b: seq<string>)
    ensures Kinds(a + b) == Kinds(a) + Kinds(b)
  {
    forall i | 0 <= i < |a + b|
      ensures Kinds(a + b)[i] == (Kinds(a) + Kinds(b))[i]
    {
      if i < |a| {
        assert (a + b)[i] == a[i];
      } else {
        assert (a + b)[i] == b[i - |a|];
      }
    }
  }

  /** One more line: a header switches the section, a content line joins the current one. */
  lemma BucketSnoc(ks: seq<LineKind>, kind: LineKind)
    ensures ActiveKey(ks + [kind]) == if kind.Header? then Some(kind.key) else ActiveKey(ks)
    ensures forall k :: Bucket(ks + [kind], k) == Bucket(ks, k) + (if kind.Content? && ActiveKey(ks) == Some(k) then [kind.text] else [])
  {
    assert (ks + [kind])[..|ks|] == ks;
  }

  /** Whether a line is kept depends only on the lines up to it. */
  lemma KeptInPrefix(ks: seq<LineKind>, m: nat, i: nat, k: SectionKey)
    requires i < m <= |ks|
    ensures ks[..m][i] == ks[i]
    ensures Kept(ks[..m], i, k) == Kept(ks, i, k)
  {
    assert ks[..m][..i] == ks[..i];
  }

  /** Every line of section `k` comes from a content line that follows a header for `k`. */
  lemma {:induction false} BucketSource(ks: seq<LineKind>, k: SectionKey, x: string) returns (i: nat)
    requires x in Bucket(ks, k)
    ensures i < |ks| && Kept(ks, i, k) && ks[i].text == x
  {
    var n := |ks| - 1;
    if x in Bucket(ks[..n], k) {
      i := BucketSource(ks[..n], k, x);
      KeptInPrefix(ks, n, i, k);
    } else {
      i := n;
    }
  }

  /** Every content line that follows a header for `k` lands in section `k`. */
  lemma {:induction false} BucketComplete(ks: seq<LineKind>, k: SectionKey, i: nat)
    requires i < |ks| && Kept(ks, i, k)
    ensures ks[i].text in Bucket(ks, k)
  {
    var n := |ks| - 1;
    if i < n {
      KeptInPrefix(ks, n, i, k);
      BucketComplete(ks[..n], k, i);
    }
  }

  /** Every collected line is a stripped, non-empty input line that is not itself a header. */
  lemma BucketLinesAreContent(lines: seq<string>, k: SectionKey, x: string)
    requires x in Bucket(Kinds(lines), k)
    ensures x != "" && IsStripped(x) && HeaderKey(x).None?
    ensures exists i :: 0 <= i < |lines| && Strip(lines[i]) == x
  {
    var i := BucketSource(Kinds(lines), k, x);
  }

  /** Lines before the first header are discarded: a header-free preamble changes no section. */
  lemma {:induction false} PreambleDiscarded(pre: seq<LineKind>, post: seq<LineKind>, k: SectionKey)
    requires ActiveKey(pre) == None
    ensures Bucket(pre + post, k) == Bucket(post, k)
  {
    if post == [] {
      assert pre + post == pre;
      PreambleBucketEmpty(pre, k);
    } else {
      var n := |post| - 1;
      assert (pre + post)[..|pre| + n] == pre + post[..n];
      PreambleDiscarded(pre, post[..n], k);
      ActiveKeyAfterPreamble(pre, post[..n]);
    }
  }

  lemma {:induction false} PreambleBucketEmpty(pre: seq<LineKind>, k: SectionKey)
    requires ActiveKey(pre) == None
    ensures Bucket(pre, k) == []
  {
    if pre != [] {
      PreambleBucketEmpty(pre[..|pre| - 1], k);
    }
  }

  /** Without a header line no section is ever active. */
  lemma {:induction false} NoHeaderNoActiveKey(ks: seq<LineKind>)
    requires forall i :: 0 <= i < |ks| ==> !ks[i].Header?
    ensures ActiveKey(ks) == None
  {
    if ks != [] {
      NoHeaderNoActiveKey(ks[..|ks| - 1]);
    }
  }

  lemma {:induction false} ActiveKeyAfterPreamble(pre: seq<LineKind>, post: seq<LineKind>)
    requires ActiveKey(pre) == None
    ensures ActiveKey(pre + post) == ActiveKey(post)
  {
    if post == [] {
      assert pre + post == pre;
    } else {
      var n := |post| - 1;
      assert (pre + post)[..|pre| + n] == pre + post[..n];
      ActiveKeyAfterPreamble(pre, post[..n]);
    }
  }

  /** Input order is kept: the sections of a prefix are prefixes of the sections of the whole. */
  lemma {:induction false} BucketOrder(ks: seq<LineKind>, m: nat, k: SectionKey)
    requires m <= |ks|
    ensures Bucket(ks[..m], k) <= Bucket(ks, k)
    decreases |ks|
  {
    if m < |ks| {
      var n := |ks| - 1;
      assert ks[..n][..m] == ks[..m];
      BucketOrder(ks[..n], m, k);
    } else {
      assert ks[..m] == ks;
    }
  }

  /** No input line is collected twice: the three sections together hold at most one line per input line. */
  lemma {:induction false} BucketsBounded(ks: seq<LineKind>)
    ensures |Bucket(ks, QuickRecap)| + |Bucket(ks, NextSteps)| + |Bucket(ks, Summary)| <= |ks|
  {
    if ks != [] {
      BucketsBounded(ks[..|ks| - 1]);
    }
  }

  /** The positions of the content lines of section `k`. */
  function KeptLines(ks: seq<LineKind>, k: SectionKey): set<nat> {
    set i: nat | i < |ks| && Kept(ks, i, k)
  }

  /** Section `k` holds exactly one line per input line kept for it: none is lost and
      none is collected twice. */
  lemma {:induction false} BucketCount(ks: seq<LineKind>, k: SectionKey)
    ensures |Bucket(ks, k)| == |KeptLines(ks, k)|
  {
    if ks != [] {
      var n := |ks| - 1;
      BucketCount(ks[..n], k);
      var before := KeptLines(ks[..n], k);
      var last: set<nat> := if Kept(ks, n, k) then {n} else {};
      KeptLinesSnoc(ks, k);
      assert before * last == {};
    }
  }

  lemma KeptLinesSnoc(ks: seq<LineKind>, k: SectionKey)
    requires ks != []
    ensures var n := |ks| - 1;
      KeptLines(ks, k) == KeptLines(ks[..n], k) + (if Kept(ks, n, k) then {n} else {})
  {
    var n := |ks| - 1;
    forall i: nat | i < n ensures Kept(ks[..n], i, k) == Kept(ks, i, k) {
      KeptInPrefix(ks, n, i, k);
    }
  }

  /** Collected lines are stripped input lines, so they hold no line break when the input lines hold none. */
  lemma BucketWithoutNewline(lines: seq<string>, k: SectionKey)
    requires LinesWithoutNewline(lines)
    ensures LinesWithoutNewline(Bucket(Kinds(lines), k))
  {
    var b := Bucket(Kinds(lines), k);
    forall j | 0 <= j < |b| ensures NoNewline(b[j]) {
      var i := BucketSource(Kinds(lines), k, b[j]);
      StrippedWithoutNewline(lines[i]);
    }
  }
}
