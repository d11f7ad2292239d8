/**
 * Splitting "Quick recap" lines into sentences (`SENTENCE_END_RE`,
 * `sentences_from_paragraph` and `parse_quick_recap`).
 */
module Recap {
  import opened Text

  predicate IsSentenceEnd(c: char) {
    c == '.' || c == '!' || c == '?'
  }

  /** `s` has no split point of `(?<=[.!?])\s+`: no whitespace right after sentence punctuation. */
  predicate NoBreak(s: string) {
    forall i :: 0 < i < |s| ==> !(IsSentenceEnd(s[i - 1]) && IsSpace(s[i]))
  }

  predicate EndsSentence(s: string) {
    s != [] && IsSentenceEnd(s[|s| - 1])
  }

  /** `re.split(r"(?<=[.!?])\s+", s)`: the pieces of `s` between the maximal
      whitespace runs that directly follow '.', '!' or '?'. */
  function SplitAtSentenceEnds(s: string): (r: seq<string>)
    ensures |r| >= 1 && |r[0]| <= |s| && r[0] == s[..|r[0]|]
    ensures |r| == 1 ==> r[0] == s
    decreases |s|
  {
    if s == [] then [""]
    else if |s| >= 2 && IsSentenceEnd(s[0]) && IsSpace(s[1]) then
      [[s[0]]] + SplitAtSentenceEnds(s[SkipSpaces(s, 1)..])
    else
      var rest := SplitAtSentenceEnds(s[1..]);
      [[s[0]] + rest[0]] + rest[1..]
  }

  /** A text without a split point is not cut: the split is the text itself. */
  lemma {:induction false} SplitUnbroken(s: string)
    requires NoBreak(s)
    ensures SplitAtSentenceEnds(s) == [s]
    decreases |s|
  {
    if s != [] {
      assert !(|s| >= 2 && IsSentenceEnd(s[0]) && IsSpace(s[1]));
      NoBreakTail(s);
      SplitUnbroken(s[1..]);
      assert [s[0]] + s[1..] == s;
    }
  }

  lemma NoBreakTail(s: string)
    requires s != [] && NoBreak(s)
    ensures NoBreak(s[1..])
  {
    forall i | 0 < i < |s| - 1 ensures !(IsSentenceEnd(s[1..][i - 1]) && IsSpace(s[1..][i])) {
      assert s[1..][i - 1] == s[i] && s[1..][i] == s[i + 1];
    }
  }

  /** No piece of the split contains a split point. */
  lemma {:induction false} SplitPieceNoBreak(s: string, j: nat)
    requires j < |SplitAtSentenceEnds(s)|
    ensures NoBreak(SplitAtSentenceEnds(s)[j])
    decreases |s|
  {
    var r := SplitAtSentenceEnds(s);
    if s == [] {
    } else if |s| >= 2 && IsSentenceEnd(s[0]) && IsSpace(s[1]) {
      if j > 0 {
        var t := s[SkipSpaces(s, 1)..];
        SplitPieceNoBreak(t, j - 1);
        assert r[j] == SplitAtSentenceEnds(t)[j - 1];
      }
    } else {
      var rest := SplitAtSentenceEnds(s[1..]);
      if j == 0 {
        SplitPieceNoBreak(s[1..], 0);
        assert rest[0] != [] ==> rest[0][0] == s[1] by {
          assert rest[0] == s[1..][..|rest[0]|];
        }
        ConsNoBreak(s[0], rest[0]);
        assert r[0] == [s[0]] + rest[0];
      } else {
        SplitPieceNoBreak(s[1..], j);
        assert r[j] == rest[j];
      }
    }
  }

  lemma ConsNoBreak(c: char, t: string)
    requires NoBreak(t) && (t != [] ==> !(IsSentenceEnd(c) && IsSpace(t[0])))
    ensures NoBreak([c] + t)
  {
    var h := [c] + t;
    forall i | 0 < i < |h| ensures !(IsSentenceEnd(h[i - 1]) && IsSpace(h[i])) {
      assert h[i] == t[i - 1];
      if i > 1 {
        assert h[i - 1] == t[i - 2];
      }
    }
  }

  /** Every piece of the split but the last ends in sentence punctuation. */
  lemma {:induction false} SplitPieceEnds(s: string, j: nat)
    requires j < |SplitAtSentenceEnds(s)| - 1
    ensures EndsSentence(SplitAtSentenceEnds(s)[j])
    decreases |s|
  {
    var r := SplitAtSentenceEnds(s);
    if |s| >= 2 && IsSentenceEnd(s[0]) && IsSpace(s[1]) {
      if j > 0 {
        var t := s[SkipSpaces(s, 1)..];
        SplitPieceEnds(t, j - 1);
        assert r[j] == SplitAtSentenceEnds(t)[j - 1];
      }
    } else {
      var rest := SplitAtSentenceEnds(s[1..]);
      SplitPieceEnds(s[1..], j);
      if j == 0 {
        assert EndsSentence(r[0]) by {
          var head := [s[0]] + rest[0];
          assert r[0] == head && head[|head| - 1] == rest[0][|rest[0]| - 1];
        }
      } else {
        assert r[j] == rest[j];
      }
    }
  }

  /** The pieces of a split hold the visible characters of the paragraph, in order. */
  lemma {:induction false} SplitKeepsText(s: string)
    ensures NonSpace(Concat(SplitAtSentenceEnds(s))) == NonSpace(s)
    decreases |s|
  {
    var r := SplitAtSentenceEnds(s);
    if s == [] {
      assert Concat(r) == "" + Concat([]);
    } else if |s| >= 2 && IsSentenceEnd(s[0]) && IsSpace(s[1]) {
      var k := SkipSpaces(s, 1);
      var tail := SplitAtSentenceEnds(s[k..]);
      SplitKeepsText(s[k..]);
      assert r == [[s[0]]] + tail;
      BreakKeepsText(s, k, tail);
    } else {
      var rest := SplitAtSentenceEnds(s[1..]);
      SplitKeepsText(s[1..]);
      assert r == [[s[0]] + rest[0]] + rest[1..];
      HeadKeepsText(s, rest);
    }
  }

  /** At a split point the punctuation ends a piece and the whitespace after it is dropped. */
  lemma BreakKeepsText(s: string, k: nat, tail: seq<string>)
    requires 1 <= k <= |s| && AllSpace(s[1..k])
    requires NonSpace(Concat(tail)) == NonSpace(s[k..])
    ensures NonSpace(Concat([[s[0]]] + tail)) == NonSpace(s)
  {
    assert Concat([[s[0]]] + tail) == [s[0]] + Concat(tail);
    assert s == [s[0]] + s[1..k] + s[k..];
    NonSpaceAppend([s[0]] + s[1..k], s[k..]);
    NonSpaceAppend([s[0]], s[1..k]);
    NonSpaceOfSpaces(s[1..k]);
    NonSpaceAppend([s[0]], Concat(tail));
  }

  /** Elsewhere the first character joins the first piece of the rest. */
  lemma HeadKeepsText(s: string, rest: seq<string>)
    requires s != [] && rest != []
    requires NonSpace(Concat(rest)) == NonSpace(s[1..])
    ensures NonSpace(Concat([[s[0]] + rest[0]] + rest[1..])) == NonSpace(s)
  {
    var head := [s[0]] + rest[0];
    var a, b, c := NonSpace([s[0]]), NonSpace(rest[0]), NonSpace(Concat(rest[1..]));
    assert NonSpace(Concat([head] + rest[1..])) == NonSpace(head) + c by {
      NonSpaceConcat([head], rest[1..]);
      ConcatSingle(head);
    }
    assert NonSpace(head) == a + b by {
      NonSpaceAppend([s[0]], rest[0]);
    }
    assert NonSpace(Concat(rest)) == b + c by {
      assert rest == [rest[0]] + rest[1..];
      NonSpaceConcat([rest[0]], rest[1..]);
      ConcatSingle(rest[0]);
    }
    assert NonSpace(s) == a + NonSpace(s[1..]) by {
      NonSpaceCons(s);
    }
    AppendAssoc(a, b, c);
  }

  lemma NonSpaceCons(s: string)
    requires s != []
    ensures NonSpace(s) == NonSpace([s[0]]) + NonSpace(s[1..])
  {
    assert s == [s[0]] + s[1..];
    NonSpaceAppend([s[0]], s[1..]);
  }

  function StripAll(xs: seq<string>): (r: seq<string>)
    ensures |r| == |xs|
    ensures forall j :: 0 <= j < |xs| ==> r[j] == Strip(xs[j])
  {
    seq(|xs|, j requires 0 <= j < |xs| => Strip(xs[j]))
  }

  /** The non-empty strings of `xs`, in order. */
  function NonBlank(xs: seq<string>): seq<string> {
    if xs == [] then []
    else NonBlank(xs[..|xs| - 1]) + (if xs[|xs| - 1] == "" then [] else [xs[|xs| - 1]])
  }

  /** `sentences_from_paragraph`: the stripped, non-empty pieces, or else the stripped paragraph. */
  function SentencesFromParagraph(paragraph: string): (r: seq<string>)
    ensures r != []
  {
    var parts := NonBlank(StripAll(SplitAtSentenceEnds(paragraph)));
    if parts != [] then parts else [Strip(paragraph)]
  }

  /** The filter keeps no blank string. */
  lemma {:induction false} NonBlankKeepsNoBlank(xs: seq<string>)
    ensures forall j :: 0 <= j < |NonBlank(xs)| ==> NonBlank(xs)[j] != ""
  {
    if xs != [] {
      var n := |xs| - 1;
      NonBlankKeepsNoBlank(xs[..n]);
      var last := if xs[n] == "" then [] else [xs[n]];
      forall j | 0 <= j < |NonBlank(xs)| ensures NonBlank(xs)[j] != "" {
        if j < |NonBlank(xs[..n])| {
          assert NonBlank(xs)[j] == NonBlank(xs[..n])[j];
        } else {
          assert NonBlank(xs)[j] == last[j - |NonBlank(xs[..n])|];
        }
      }
    }
  }

  /** No sentence is empty, unless the paragraph is blank and its one sentence is "". */
  lemma SentencesNonEmpty(paragraph: string, j: nat)
    requires j < |SentencesFromParagraph(paragraph)| && SentencesFromParagraph(paragraph) != [""]
    ensures SentencesFromParagraph(paragraph)[j] != ""
  {
    var parts := NonBlank(StripAll(SplitAtSentenceEnds(paragraph)));
    if parts != [] {
      NonBlankKeepsNoBlank(StripAll(SplitAtSentenceEnds(paragraph)));
    }
  }

  lemma {:induction false} NonBlankOfFull(xs: seq<string>)
    requires forall j :: 0 <= j < |xs| ==> xs[j] != ""
    ensures NonBlank(xs) == xs
  {
    if xs != [] {
      NonBlankOfFull(xs[..|xs| - 1]);
    }
  }

  lemma {:induction false} NonBlankConcat(xs: seq<string>)
    ensures Concat(NonBlank(xs)) == Concat(xs)
  {
    if xs != [] {
      var n := |xs| - 1;
      NonBlankConcat(xs[..n]);
      assert xs == xs[..n] + [xs[n]];
      ConcatAppend(xs[..n], [xs[n]]);
      ConcatAppend(NonBlank(xs[..n]), if xs[n] == "" then [] else [xs[n]]);
      assert Concat([xs[n]]) == xs[n] + Concat([]);
    }
  }

  lemma {:induction false} StripAllKeepsText(xs: seq<string>)
    ensures NonSpace(Concat(StripAll(xs))) == NonSpace(Concat(xs))
  {
    if xs != [] {
      StripAllKeepsText(xs[1..]);
      assert StripAll(xs)[1..] == StripAll(xs[1..]);
      NonSpaceAppend(Strip(xs[0]), Concat(StripAll(xs[1..])));
      NonSpaceAppend(xs[0], Concat(xs[1..]));
      StripKeepsNonSpace(xs[0]);
    }
  }

  /** After stripping, a piece keeps the split's guarantees: it holds no split point,
      and every piece but the last still ends a sentence (so it is not blank). */
  lemma StrippedPiece(paragraph: string, j: nat)
    requires j < |SplitAtSentenceEnds(paragraph)|
    ensures var raw := StripAll(SplitAtSentenceEnds(paragraph));
      IsStripped(raw[j]) && NoBreak(raw[j]) && (j < |raw| - 1 ==> EndsSentence(raw[j]))
  {
    var pieces := SplitAtSentenceEnds(paragraph);
    var last := j == |pieces| - 1;
    SplitPieceNoBreak(paragraph, j);
    if !last {
      SplitPieceEnds(paragraph, j);
    }
    StrippedSentence(pieces[j], last);
  }

  lemma StrippedSentence(piece: string, last: bool)
    requires NoBreak(piece) && (!last ==> EndsSentence(piece))
    ensures IsStripped(Strip(piece)) && NoBreak(Strip(piece)) && (!last ==> EndsSentence(Strip(piece)))
  {
    InfixNoBreak(piece, StripStart(piece), StripEnd(piece));
    if !last {
      StripKeepsLastVisible(piece);
    }
  }

  lemma NonBlankAllButLast(xs: seq<string>)
    requires xs != []
    requires forall j :: 0 <= j < |xs| - 1 ==> xs[j] != ""
    ensures NonBlank(xs) == xs[..|xs| - 1] + (if xs[|xs| - 1] == "" then [] else [xs[|xs| - 1]])
  {
    NonBlankOfFull(xs[..|xs| - 1]);
  }

  /** Only the last stripped piece can be blank, so the filter drops at most that one. */
  lemma SurvivingPieces(pieces: seq<string>)
    requires pieces != []
    requires forall j :: 0 <= j < |pieces| - 1 ==> EndsSentence(pieces[j])
    ensures var raw := StripAll(pieces);
      NonBlank(raw) == raw[..|raw| - 1] + (if raw[|raw| - 1] == "" then [] else [raw[|raw| - 1]])
  {
    var raw := StripAll(pieces);
    forall j | 0 <= j < |raw| - 1 ensures raw[j] != "" {
      StripKeepsLastVisible(pieces[j]);
    }
    NonBlankAllButLast(raw);
  }

  lemma AllSplitPiecesEnd(s: string)
    ensures forall j :: 0 <= j < |SplitAtSentenceEnds(s)| - 1 ==> EndsSentence(SplitAtSentenceEnds(s)[j])
  {
    forall j | 0 <= j < |SplitAtSentenceEnds(s)| - 1 ensures EndsSentence(SplitAtSentenceEnds(s)[j]) {
      SplitPieceEnds(s, j);
    }
  }

  /** No visible character of the paragraph is lost, reordered or duplicated. */
  lemma SentencesKeepText(paragraph: string)
    ensures NonSpace(Concat(SentencesFromParagraph(paragraph))) == NonSpace(paragraph)
  {
    var raw := StripAll(SplitAtSentenceEnds(paragraph));
    SplitKeepsText(paragraph);
    StripAllKeepsText(SplitAtSentenceEnds(paragraph));
    NonBlankConcat(raw);
    if NonBlank(raw) == [] {
      StripKeepsNonSpace(paragraph);
      assert Concat([Strip(paragraph)]) == Strip(paragraph) + Concat([]);
    }
  }

  /** Every sentence is stripped and contains no split point, and every sentence but the
      last ends in '.', '!' or '?': the paragraph is cut only after sentence punctuation. */
  lemma SentenceShape(paragraph: string, j: nat)
    requires j < |SentencesFromParagraph(paragraph)|
    ensures var r := SentencesFromParagraph(paragraph);
      IsStripped(r[j]) && NoBreak(r[j]) && (j < |r| - 1 ==> EndsSentence(r[j]))
  {
    var raw := StripAll(SplitAtSentenceEnds(paragraph));
    if NonBlank(raw) == [] {
      BlankParagraph(paragraph);
    } else {
      assert SentencesFromParagraph(paragraph) == NonBlank(raw);
      SurvivingShape(paragraph, j);
    }
  }

  /** A paragraph none of whose pieces has a visible character gives the one empty sentence. */
  lemma BlankParagraph(paragraph: string)
    requires NonBlank(StripAll(SplitAtSentenceEnds(paragraph))) == []
    ensures SentencesFromParagraph(paragraph) == [""]
  {
    var pieces := SplitAtSentenceEnds(paragraph);
    var raw := StripAll(pieces);
    AllSplitPiecesEnd(paragraph);
    SurvivingPieces(pieces);
    assert |raw| == 1;
    assert raw[0] == Strip(pieces[0]) && pieces[0] == paragraph;
  }

  lemma SurvivingShape(paragraph: string, j: nat)
    requires j < |NonBlank(StripAll(SplitAtSentenceEnds(paragraph)))|
    ensures var r := NonBlank(StripAll(SplitAtSentenceEnds(paragraph)));
      IsStripped(r[j]) && NoBreak(r[j]) && (j < |r| - 1 ==> EndsSentence(r[j]))
  {
    var pieces := SplitAtSentenceEnds(paragraph);
    var raw := StripAll(pieces);
    AllSplitPiecesEnd(paragraph);
    SurvivingPieces(pieces);
    DropLastIndex(raw, NonBlank(raw), j);
    StrippedPiece(paragraph, j);
  }

  /** The `j`-th element of `xs` without its last element if that one is blank. */
  lemma DropLastIndex(xs: seq<string>, ys: seq<string>, j: nat)
    requires xs != [] && j < |ys|
    requires ys == xs[..|xs| - 1] + (if xs[|xs| - 1] == "" then [] else [xs[|xs| - 1]])
    ensures ys[j] == xs[j] && |ys| <= |xs|
  {
  }

  /** A paragraph without a split point is one sentence: the paragraph, stripped. */
  lemma UnbrokenParagraph(paragraph: string)
    requires NoBreak(paragraph)
    ensures SentencesFromParagraph(paragraph) == [Strip(paragraph)]
  {
    SplitUnbroken(paragraph);
    OnePiece(paragraph);
  }

  lemma OnePiece(paragraph: string)
    requires |SplitAtSentenceEnds(paragraph)| == 1
    ensures SentencesFromParagraph(paragraph) == [Strip(paragraph)]
  {
    var raw := StripAll(SplitAtSentenceEnds(paragraph));
    assert raw == [Strip(paragraph)];
    NonBlankOne(Strip(paragraph));
  }

  lemma NonBlankOne(x: string)
    ensures NonBlank([x]) == (if x == "" then [] else [x])
  {
    assert [x][..0] == [];
  }

  /** The pieces `ps` with the gaps `gs` put back between them:
      `ps[0] + gs[0] + ps[1] + ... + gs[n - 2] + ps[n - 1]`. */
  function Rejoin(ps: seq<string>, gs: seq<string>): string
    requires |ps| == |gs| + 1
    decreases |gs|
  {
    if gs == [] then ps[0] else ps[0] + gs[0] + Rejoin(ps[1..], gs[1..])
  }

  /** Every gap is a non-empty run of whitespace. */
  predicate Gaps(gs: seq<string>) {
    forall j :: 0 <= j < |gs| ==> gs[j] != "" && AllSpace(gs[j])
  }

  /** A piece that does not start with whitespace. */
  predicate StartsVisible(p: string) {
    p == [] || !IsSpace(p[0])
  }

  /** The split removes only whole whitespace runs: putting those runs back between the
      pieces gives the text again, and no piece after the first starts with whitespace. */
  lemma {:induction false} SplitRejoins(s: string) returns (gs: seq<string>)
    ensures |gs| + 1 == |SplitAtSentenceEnds(s)|
    ensures Gaps(gs)
    ensures forall j :: 1 <= j < |SplitAtSentenceEnds(s)| ==> StartsVisible(SplitAtSentenceEnds(s)[j])
    ensures s == Rejoin(SplitAtSentenceEnds(s), gs)
    decreases |s|
  {
    var r := SplitAtSentenceEnds(s);
    if s == [] {
      gs := [];
    } else if |s| >= 2 && IsSentenceEnd(s[0]) && IsSpace(s[1]) {
      var k := SkipSpaces(s, 1);
      var tail := SplitAtSentenceEnds(s[k..]);
      var gt := SplitRejoins(s[k..]);
      assert k >= 2;
      assert r == [[s[0]]] + tail;
      gs := BreakCase(s, k, tail, gt);
    } else {
      var rest := SplitAtSentenceEnds(s[1..]);
      gs := SplitRejoins(s[1..]);
      assert r == [[s[0]] + rest[0]] + rest[1..];
      HeadCase(s, rest, gs);
    }
  }

  /** At a split point the whitespace run becomes the first gap. */
  lemma BreakCase(s: string, k: nat, tail: seq<string>, gt: seq<string>) returns (gs: seq<string>)
    requires 2 <= k <= |s| && forall j :: 1 <= j < k ==> IsSpace(s[j])
    requires k < |s| ==> !IsSpace(s[k])
    requires |tail| == |gt| + 1 && Gaps(gt) && s[k..] == Rejoin(tail, gt)
    requires tail[0] == s[k..][..|tail[0]|]
    requires forall j :: 1 <= j < |tail| ==> StartsVisible(tail[j])
    ensures |gs| == |gt| + 1 && Gaps(gs) && s == Rejoin([[s[0]]] + tail, gs)
    ensures forall j :: 1 <= j < |tail| + 1 ==> StartsVisible(([[s[0]]] + tail)[j])
  {
    gs := [s[1..k]] + gt;
    BreakGaps(s, k, gt);
    BreakRejoin(s, k, tail, gt);
    var r := [[s[0]]] + tail;
    assert StartsVisible(r[1]) by {
      assert r[1] == tail[0];
    }
    forall j | 2 <= j < |r| ensures StartsVisible(r[j]) {
      assert r[j] == tail[j - 1];
    }
  }

  /** Away from a split point the first character joins the first piece. */
  lemma HeadCase(s: string, rest: seq<string>, gs: seq<string>)
    requires s != [] && |rest| == |gs| + 1 && s[1..] == Rejoin(rest, gs)
    requires forall j :: 1 <= j < |rest| ==> StartsVisible(rest[j])
    ensures s == Rejoin([[s[0]] + rest[0]] + rest[1..], gs)
    ensures forall j :: 1 <= j < |rest| ==> StartsVisible(([[s[0]] + rest[0]] + rest[1..])[j])
  {
    var r := [[s[0]] + rest[0]] + rest[1..];
    assert s == Rejoin(r, gs) by {
      RejoinFirst([s[0]], rest[0], rest[1..], gs);
      assert [rest[0]] + rest[1..] == rest;
      assert s == [s[0]] + s[1..];
    }
    ReplaceHead([s[0]] + rest[0], rest);
  }

  /** Replacing the first element leaves the others in place. */
  lemma ReplaceHead<T>(x: T, xs: seq<T>)
    requires xs != []
    ensures forall j :: 1 <= j < |xs| ==> ([x] + xs[1..])[j] == xs[j]
  {
  }

  lemma BreakGaps(s: string, k: nat, gt: seq<string>)
    requires 2 <= k <= |s| && Gaps(gt)
    requires forall j :: 1 <= j < k ==> IsSpace(s[j])
    ensures Gaps([s[1..k]] + gt)
  {
    assert AllSpace(s[1..k]) by {
      forall i | 0 <= i < k - 1 ensures IsSpace(s[1..k][i]) {
        assert s[1..k][i] == s[i + 1];
      }
    }
    forall j | 0 <= j < |gt| + 1 ensures ([s[1..k]] + gt)[j] != "" && AllSpace(([s[1..k]] + gt)[j]) {
      if j > 0 {
        assert ([s[1..k]] + gt)[j] == gt[j - 1];
      }
    }
  }

  lemma BreakRejoin(s: string, k: nat, tail: seq<string>, gt: seq<string>)
    requires 2 <= k <= |s| && |tail| == |gt| + 1 && s[k..] == Rejoin(tail, gt)
    ensures s == Rejoin([[s[0]]] + tail, [s[1..k]] + gt)
  {
    var ps, gs := [[s[0]]] + tail, [s[1..k]] + gt;
    assert ps[1..] == tail && gs[1..] == gt;
    assert Rejoin(ps, gs) == [s[0]] + s[1..k] + s[k..];
    assert s == [s[0]] + s[1..k] + s[k..];
  }

  /** A prefix of the first piece is a prefix of the rejoined text. */
  lemma RejoinFirst(x: string, y: string, rest: seq<string>, gs: seq<string>)
    requires |rest| == |gs|
    ensures Rejoin([x + y] + rest, gs) == x + Rejoin([y] + rest, gs)
  {
    if gs != [] {
      var tail := Rejoin(rest, gs[1..]);
      assert ([x + y] + rest)[1..] == rest && ([y] + rest)[1..] == rest;
      AppendAssoc(x, y, gs[0]);
      AppendAssoc(x, y + gs[0], tail);
    }
  }

  /** A suffix of the last piece is a suffix of the rejoined text. */
  lemma {:induction false} RejoinLast(ps: seq<string>, y: string, z: string, gs: seq<string>)
    requires |ps| == |gs|
    ensures Rejoin(ps + [y + z], gs) == Rejoin(ps + [y], gs) + z
    decreases |gs|
  {
    if gs != [] {
      RejoinLast(ps[1..], y, z, gs[1..]);
      assert (ps + [y + z])[1..] == ps[1..] + [y + z];
      assert (ps + [y])[1..] == ps[1..] + [y];
      AppendAssoc(ps[0] + gs[0], Rejoin(ps[1..] + [y], gs[1..]), z);
    }
  }

  /** Dropping the last piece leaves the last gap and that piece at the end. */
  lemma {:induction false} RejoinDropLast(ps: seq<string>, z: string, gs: seq<string>)
    requires |ps| == |gs| >= 1
    ensures Rejoin(ps + [z], gs) == Rejoin(ps, gs[..|gs| - 1]) + (gs[|gs| - 1] + z)
    decreases |gs|
  {
    var n := |gs| - 1;
    if n == 0 {
      assert (ps + [z])[1..] == [z];
      AppendAssoc(ps[0], gs[0], z);
    } else {
      RejoinDropLast(ps[1..], z, gs[1..]);
      assert (ps + [z])[1..] == ps[1..] + [z];
      assert gs[1..][..n - 1] == gs[..n][1..];
      AppendAssoc(ps[0] + gs[0], Rejoin(ps[1..], gs[..n][1..]), gs[n] + z);
    }
  }

  /** The sentences of a paragraph are its text with only whitespace taken out: leading
      whitespace, trailing whitespace, and one non-empty whitespace run between each two
      neighbouring sentences. */
  lemma SentencesRejoin(paragraph: string) returns (lead: string, gs: seq<string>, trail: string)
    ensures AllSpace(lead) && AllSpace(trail) && Gaps(gs)
    ensures |gs| + 1 == |SentencesFromParagraph(paragraph)|
    ensures paragraph == lead + Rejoin(SentencesFromParagraph(paragraph), gs) + trail
  {
    var r := SplitAtSentenceEnds(paragraph);
    var g := SplitRejoins(paragraph);
    if |r| == 1 {
      OnePiece(paragraph);
      lead, gs, trail := paragraph[..StripStart(paragraph)], [], paragraph[StripEnd(paragraph)..];
      StripParts(paragraph);
    } else {
      AllSplitPiecesEnd(paragraph);
      lead, gs, trail := PiecesRejoin(r, g);
    }
  }

  /** The same for the pieces of a split with at least one split point: stripping the
      pieces and dropping a blank last piece takes out only whitespace. */
  lemma PiecesRejoin(r: seq<string>, g: seq<string>) returns (lead: string, gs: seq<string>, trail: string)
    requires |r| >= 2 && |r| == |g| + 1 && Gaps(g)
    requires forall j :: 0 <= j < |r| - 1 ==> EndsSentence(r[j])
    requires forall j :: 1 <= j < |r| ==> StartsVisible(r[j])
    ensures NonBlank(StripAll(r)) != []
    ensures AllSpace(lead) && AllSpace(trail) && Gaps(gs)
    ensures |gs| + 1 == |NonBlank(StripAll(r))|
    ensures Rejoin(r, g) == lead + Rejoin(NonBlank(StripAll(r)), gs) + trail
  {
    var raw := StripAll(r);
    var ys := NonBlank(raw);
    var n := |r| - 1;
    assert ys != [] && ys == (if raw[n] == "" then raw[..n] else raw) by {
      SurvivingPieces(r);
      KeepLast(raw, ys);
    }
    var t: string;
    lead, t := StripOuterPieces(r, g);
    if raw[n] != "" {
      gs, trail := g, t;
    } else {
      gs, trail := g[..n - 1], g[n - 1] + t;
      DropBlankLast(raw, g, lead, t);
      AllSpaceAppend(g[n - 1], t);
      GapsPrefix(g, n - 1);
    }
  }

  lemma GapsPrefix(gs: seq<string>, m: nat)
    requires Gaps(gs) && m <= |gs|
    ensures Gaps(gs[..m])
  {
    forall j | 0 <= j < m ensures gs[..m][j] != "" && AllSpace(gs[..m][j]) {
      assert gs[..m][j] == gs[j];
    }
  }

  /** Dropping a blank last element from two or more. */
  lemma KeepLast(xs: seq<string>, ys: seq<string>)
    requires |xs| >= 2
    requires ys == xs[..|xs| - 1] + (if xs[|xs| - 1] == "" then [] else [xs[|xs| - 1]])
    ensures ys != [] && ys == (if xs[|xs| - 1] == "" then xs[..|xs| - 1] else xs)
  {
    assert xs == xs[..|xs| - 1] + [xs[|xs| - 1]];
  }

  /** Stripping the inner pieces changes nothing; stripping the outer two moves only the
      paragraph's leading and trailing whitespace out of the rejoined text. */
  lemma StripOuterPieces(r: seq<string>, g: seq<string>) returns (lead: string, trail: string)
    requires |r| >= 2 && |r| == |g| + 1
    requires forall j :: 0 <= j < |r| - 1 ==> EndsSentence(r[j])
    requires forall j :: 1 <= j < |r| ==> StartsVisible(r[j])
    ensures AllSpace(lead) && AllSpace(trail)
    ensures Rejoin(r, g) == lead + Rejoin(StripAll(r), g) + trail
  {
    var raw := StripAll(r);
    var n := |r| - 1;
    lead := FirstPiece(r[0]);
    trail := LastPiece(r[n]);
    assert r[1..n] == raw[1..n] by {
      forall j | 1 <= j < n ensures raw[j] == r[j] {
        InnerPiece(r[j]);
      }
      SameMiddle(r, raw);
    }
    RejoinOuter(r, raw, g, lead, trail);
  }

  /** Rejoining pieces that differ from `raw` only by `lead` before the first and `trail`
      after the last. */
  lemma RejoinOuter(r: seq<string>, raw: seq<string>, g: seq<string>, lead: string, trail: string)
    requires |r| == |raw| == |g| + 1 >= 2
    requires r[0] == lead + raw[0] && r[|r| - 1] == raw[|r| - 1] + trail
    requires r[1..|r| - 1] == raw[1..|r| - 1]
    ensures Rejoin(r, g) == lead + Rejoin(raw, g) + trail
  {
    var n := |r| - 1;
    var mid := raw[1..n];
    Ends(r, lead + raw[0], mid, raw[n] + trail);
    Ends(raw, raw[0], mid, raw[n]);
    RejoinFirst(lead, raw[0], mid + [raw[n] + trail], g);
    assert [raw[0]] + (mid + [raw[n] + trail]) == ([raw[0]] + mid) + [raw[n] + trail];
    RejoinLast([raw[0]] + mid, raw[n], trail, g);
    AppendAssoc(lead, Rejoin(raw, g), trail);
  }

  lemma SameMiddle(xs: seq<string>, ys: seq<string>)
    requires |xs| == |ys| >= 2
    requires forall j :: 1 <= j < |xs| - 1 ==> ys[j] == xs[j]
    ensures xs[1..|xs| - 1] == ys[1..|ys| - 1]
  {
    var n := |xs| - 1;
    forall i | 0 <= i < n - 1 ensures xs[1..n][i] == ys[1..n][i] {
      assert xs[1..n][i] == xs[i + 1] && ys[1..n][i] == ys[i + 1];
    }
  }

  /** A sequence of two or more elements is its first element, its middle and its last. */
  lemma Ends<T>(xs: seq<T>, a: T, mid: seq<T>, b: T)
    requires |xs| >= 2 && xs[0] == a && xs[|xs| - 1] == b && xs[1..|xs| - 1] == mid
    ensures xs == [a] + (mid + [b]) && xs == [a] + mid + [b]
  {
  }

  /** A piece that ends a sentence loses only its leading whitespace when stripped. */
  lemma FirstPiece(p: string) returns (lead: string)
    requires EndsSentence(p)
    ensures AllSpace(lead) && p == lead + Strip(p)
  {
    StripParts(p);
    lead := p[..StripStart(p)];
    assert p[StripEnd(p)..] == [];
  }

  /** A piece that starts with a visible character loses only its trailing whitespace. */
  lemma LastPiece(p: string) returns (trail: string)
    requires StartsVisible(p)
    ensures AllSpace(trail) && p == Strip(p) + trail
  {
    StripParts(p);
    trail := p[StripEnd(p)..];
    assert p[..StripStart(p)] == [];
  }

  lemma InnerPiece(p: string)
    requires EndsSentence(p) && StartsVisible(p)
    ensures Strip(p) == p
  {
    StripParts(p);
    assert p[..StripStart(p)] == [] && p[StripEnd(p)..] == [];
  }

  lemma DropBlankLast(raw: seq<string>, g: seq<string>, lead: string, t: string)
    requires |raw| >= 2 && |raw| == |g| + 1 && raw[|raw| - 1] == ""
    ensures var n := |raw| - 1;
      lead + Rejoin(raw, g) + t == lead + Rejoin(raw[..n], g[..n - 1]) + (g[n - 1] + t)
  {
    var n := |raw| - 1;
    assert raw == raw[..n] + [""];
    RejoinDropLast(raw[..n], "", g);
    assert g[n - 1] + "" == g[n - 1];
    var x := Rejoin(raw[..n], g[..n - 1]);
    AppendAssoc(x, g[n - 1], t);
    AppendAssoc(lead, x, g[n - 1] + t);
    AppendAssoc(lead, x + g[n - 1], t);
    AppendAssoc(lead, x, g[n - 1]);
  }

  lemma InfixNoBreak(s: string, a: nat, b: nat)
    requires a <= b <= |s| && NoBreak(s)
    ensures NoBreak(s[a..b])
  {
    forall i | 0 < i < b - a ensures !(IsSentenceEnd(s[a..b][i - 1]) && IsSpace(s[a..b][i])) {
      assert s[a..b][i - 1] == s[a + i - 1] && s[a..b][i] == s[a + i];
    }
  }

  /** The results of `f` on each element, one after another. */
  function FlatMap<T>(f: T -> seq<string>, xs: seq<T>): seq<string> {
    if xs == [] then [] else FlatMap(f, xs[..|xs| - 1]) + f(xs[|xs| - 1])
  }

  lemma {:induction false} FlatMapAppend<T>(f: T -> seq<string>, a: seq<T>, b: seq<T>)
    ensures FlatMap(f, a + b) == FlatMap(f, a) + FlatMap(f, b)
  {
    if b == [] {
      assert a + b == a;
    } else {
      var n := |b| - 1;
      assert (a + b)[..|a| + n] == a + b[..n];
      FlatMapAppend(f, a, b[..n]);
    }
  }

  /** The sentences of each recap line, one line after another (what `parse_quick_recap` returns). */
  function RecapSentences(lines: seq<string>): seq<string> {
    FlatMap(SentencesFromParagraph, lines)
  }

  /** `parse_quick_recap`: extends the sentence list line by line. */
  method ParseQuickRecap(lines: seq<string>) returns (sentences: seq<string>)
    ensures sentences == RecapSentences(lines)
    ensures |sentences| >= |lines|
  {
    sentences := [];
    var i := 0;
    while i < |lines|
      invariant 0 <= i <= |lines|
      invariant sentences == FlatMap(SentencesFromParagraph, lines[..i])
      invariant |sentences| >= i
    {
      assert lines[..i + 1][..i] == lines[..i];
      sentences := sentences + SentencesFromParagraph(lines[i]);
      i := i + 1;
    }
    assert lines[..i] == lines;
  }

  /** Line order is kept: the sentences of two blocks of lines are those of the first, then those of the second. */
  lemma RecapAppend(a: seq<string>, b: seq<string>)
    ensures RecapSentences(a + b) == RecapSentences(a) + RecapSentences(b)
  {
    FlatMapAppend(SentencesFromParagraph, a, b);
  }

  /** Every line gives at least one sentence. */
  lemma {:induction false} RecapLength(lines: seq<string>)
    ensures |RecapSentences(lines)| >= |lines|
  {
    if lines != [] {
      RecapLength(lines[..|lines| - 1]);
    }
  }

  /** The recap keeps every visible character of its lines, in order. */
  lemma {:induction false} RecapKeepsText(lines: seq<string>)
    ensures NonSpace(Concat(RecapSentences(lines))) == NonSpace(Concat(lines))
  {
    if lines != [] {
      var n := |lines| - 1;
      var init, last := FlatMap(SentencesFromParagraph, lines[..n]), SentencesFromParagraph(lines[n]);
      assert RecapSentences(lines) == init + last;
      RecapKeepsText(lines[..n]);
      SentencesKeepText(lines[n]);
      NonSpaceConcat(init, last);
      LastSplit(lines);
      NonSpaceConcatSnoc(lines[..n], lines[n]);
    }
  }

  /** The pieces of a paragraph without line breaks hold none. */
  lemma {:induction false} SplitPieceWithoutNewline(s: string, j: nat)
    requires NoNewline(s) && j < |SplitAtSentenceEnds(s)|
    ensures NoNewline(SplitAtSentenceEnds(s)[j])
    decreases |s|
  {
    var r := SplitAtSentenceEnds(s);
    if s == [] {
    } else if |s| >= 2 && IsSentenceEnd(s[0]) && IsSpace(s[1]) {
      if j > 0 {
        var k := SkipSpaces(s, 1);
        SliceWithoutNewline(s, k, |s|);
        SplitPieceWithoutNewline(s[k..], j - 1);
        assert r[j] == SplitAtSentenceEnds(s[k..])[j - 1];
      }
    } else {
      var rest := SplitAtSentenceEnds(s[1..]);
      SliceWithoutNewline(s, 1, |s|);
      if j == 0 {
        SplitPieceWithoutNewline(s[1..], 0);
        assert r[0] == [s[0]] + rest[0];
      } else {
        SplitPieceWithoutNewline(s[1..], j);
        assert r[j] == rest[j];
      }
    }
  }

  /** Each string the filter keeps is one of its input strings. */
  lemma {:induction false} NonBlankSource(xs: seq<string>, j: nat) returns (i: nat)
    requires j < |NonBlank(xs)|
    ensures i < |xs| && NonBlank(xs)[j] == xs[i]
  {
    var n := |xs| - 1;
    if j < |NonBlank(xs[..n])| {
      i := NonBlankSource(xs[..n], j);
    } else {
      i := n;
    }
  }

  /** Sentences of a paragraph without line breaks hold none. */
  lemma SentenceWithoutNewline(paragraph: string, j: nat)
    requires NoNewline(paragraph) && j < |SentencesFromParagraph(paragraph)|
    ensures NoNewline(SentencesFromParagraph(paragraph)[j])
  {
    var pieces := SplitAtSentenceEnds(paragraph);
    var raw := StripAll(pieces);
    if NonBlank(raw) == [] {
      StrippedWithoutNewline(paragraph);
    } else {
      var i := NonBlankSource(raw, j);
      SplitPieceWithoutNewline(paragraph, i);
      StrippedWithoutNewline(pieces[i]);
    }
  }

  /** Sentences of lines without line breaks hold none either. */
  lemma {:induction false} RecapWithoutNewline(lines: seq<string>)
    requires LinesWithoutNewline(lines)
    ensures LinesWithoutNewline(RecapSentences(lines))
  {
    if lines != [] {
      var n := |lines| - 1;
      assert LinesWithoutNewline(lines[..n]);
      RecapWithoutNewline(lines[..n]);
      var last := SentencesFromParagraph(lines[n]);
      forall j | 0 <= j < |last| ensures NoNewline(last[j]) {
        SentenceWithoutNewline(lines[n], j);
      }
      LinesAppend(RecapSentences(lines[..n]), last);
    }
  }
}
