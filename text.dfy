/**
 * String helpers the summary converter relies on: whitespace stripping,
 * ASCII lower-casing, joining, and splitting text into lines.
 *
 * Whitespace is the set of ASCII characters that Python's `str.isspace()`
 * accepts (the same set the `\s` class of a `str` regular expression uses).
 */
module Text {

  predicate IsSpace(c: char) {
    c == ' ' || c == '\t' || c == '\n' || c == '\r' || c == '\U{0B}' || c == '\U{0C}'
    || c == '\U{1C}' || c == '\U{1D}' || c == '\U{1E}' || c == '\U{1F}'
  }

  predicate AllSpace(s: string) {
    forall i :: 0 <= i < |s| ==> IsSpace(s[i])
  }

  /** Neither end of `s` is whitespace. */
  predicate IsStripped(s: string) {
    s == [] || (!IsSpace(s[0]) && !IsSpace(s[|s| - 1]))
  }

  /** The first index at or after `i` that is not whitespace (or `|s|`). */
  function SkipSpaces(s: string, i: nat): (k: nat)
    requires i <= |s|
    ensures i <= k <= |s|
    ensures forall j :: i <= j < k ==> IsSpace(s[j])
    ensures k < |s| ==> !IsSpace(s[k])
    decreases |s| - i
  {
    if i < |s| && IsSpace(s[i]) then SkipSpaces(s, i + 1) else i
  }

  /** Going down from `j` but not below `lo`, the end of the last non-whitespace run. */
  function SkipSpacesBack(s: string, lo: nat, j: nat): (k: nat)
    requires lo <= j <= |s|
    ensures lo <= k <= j
    ensures forall m :: k <= m < j ==> IsSpace(s[m])
    ensures k > lo ==> !IsSpace(s[k - 1])
  {
    if j > lo && IsSpace(s[j - 1]) then SkipSpacesBack(s, lo, j - 1) else j
  }

  /** Where the stripped text starts and ends inside `s`. */
  function StripStart(s: string): nat {
    SkipSpaces(s, 0)
  }

  function StripEnd(s: string): (e: nat)
    ensures StripStart(s) <= e <= |s|
  {
    SkipSpacesBack(s, StripStart(s), |s|)
  }

  /** Python's `str.strip()` restricted to ASCII whitespace: the part of `s`
      between its leading and its trailing whitespace. */
  function Strip(s: string): (r: string)
    ensures IsStripped(r)
    ensures r == s[StripStart(s)..StripEnd(s)]
    ensures AllSpace(s[..StripStart(s)]) && AllSpace(s[StripEnd(s)..])
  {
    var a, b := StripStart(s), StripEnd(s);
    assert forall j :: 0 <= j < a ==> IsSpace(s[..a][j]);
    assert forall j :: 0 <= j < |s| - b ==> IsSpace(s[b..][j]);
    s[a..b]
  }

  /** The non-whitespace characters of `s`, in order. */
  function NonSpace(s: string): string {
    if s == [] then [] else (if IsSpace(s[0]) then [] else [s[0]]) + NonSpace(s[1..])
  }

  lemma {:induction false} NonSpaceAppend(a: string, b: string)
    ensures NonSpace(a + b) == NonSpace(a) + NonSpace(b)
  {
    if a != [] {
      var h := if IsSpace(a[0]) then [] else [a[0]];
      assert (a + b)[0] == a[0] && (a + b)[1..] == a[1..] + b;
      NonSpaceAppend(a[1..], b);
      calc {
        NonSpace(a + b);
        h + NonSpace(a[1..] + b);
        h + (NonSpace(a[1..]) + NonSpace(b));
        (h + NonSpace(a[1..])) + NonSpace(b);
      }
    } else {
      assert a + b == b;
    }
  }

  lemma {:induction false} NonSpaceOfSpaces(s: string)
    requires AllSpace(s)
    ensures NonSpace(s) == []
  {
    if s != [] {
      NonSpaceOfSpaces(s[1..]);
    }
  }

  /** Stripping never loses a visible character. */
  lemma StripKeepsNonSpace(s: string)
    ensures NonSpace(Strip(s)) == NonSpace(s)
  {
    var r := Strip(s);
    var pre, post := s[..StripStart(s)], s[StripEnd(s)..];
    assert s == pre + r + post;
    NonSpaceAppend(pre + r, post);
    NonSpaceAppend(pre, r);
    NonSpaceOfSpaces(pre);
    NonSpaceOfSpaces(post);
  }

  /** A string strips to nothing exactly when it is all whitespace. */
  lemma StripEmptyIffAllSpace(s: string)
    ensures Strip(s) == [] <==> AllSpace(s)
  {
    var r, k := Strip(s), StripStart(s);
    if r == [] {
      assert s == s[..k] + s[k..];
      forall i | 0 <= i < |s| ensures IsSpace(s[i]) {
        assert s[i] == s[..k][i];
      }
    } else {
      assert !IsSpace(s[k]);
    }
  }

  /** Stripping is idempotent. */
  lemma StrippedIsFixed(s: string)
    requires IsStripped(s)
    ensures Strip(s) == s
  {
    assert StripStart(s) == 0;
  }

  /** A string that ends in a visible character keeps that last character when stripped. */
  lemma StripKeepsLastVisible(s: string)
    requires s != [] && !IsSpace(s[|s| - 1])
    ensures Strip(s) != [] && Strip(s)[|Strip(s)| - 1] == s[|s| - 1]
  {
    assert StripEnd(s) == |s|;
  }

  /** ASCII lower-casing, the part of Python's `str.lower()` the section headers need. */
  function LowerChar(c: char): char {
    if 'A' <= c <= 'Z' then (c as int + 32) as char else c
  }

  function Lower(s: string): (r: string)
    ensures |r| == |s|
    ensures forall i :: 0 <= i < |s| ==> r[i] == LowerChar(s[i])
  {
    seq(|s|, i requires 0 <= i < |s| => LowerChar(s[i]))
  }

  /** Python's `sep.join(parts)`. */
  function Join(sep: string, parts: seq<string>): string {
    if parts == [] then ""
    else if |parts| == 1 then parts[0]
    else parts[0] + sep + Join(sep, parts[1..])
  }

  /** Joining with separator `sep` after appending one more part. */
  lemma {:induction false} JoinSnoc(sep: string, parts: seq<string>, x: string)
    requires parts != []
    ensures Join(sep, parts + [x]) == Join(sep, parts) + sep + x
  {
    if |parts| > 1 {
      assert (parts + [x])[1..] == parts[1..] + [x];
      JoinSnoc(sep, parts[1..], x);
    }
  }

  /** All parts one after another, with no separator. */
  function Concat(parts: seq<string>): string {
    if parts == [] then "" else parts[0] + Concat(parts[1..])
  }

  lemma {:induction false} ConcatAppend(a: seq<string>, b: seq<string>)
    ensures Concat(a + b) == Concat(a) + Concat(b)
  {
    if a != [] {
      assert (a + b)[0] == a[0] && (a + b)[1..] == a[1..] + b;
      ConcatAppend(a[1..], b);
      calc {
        Concat(a + b);
        a[0] + Concat(a[1..] + b);
        a[0] + (Concat(a[1..]) + Concat(b));
        (a[0] + Concat(a[1..])) + Concat(b);
      }
    } else {
      assert a + b == b;
    }
  }

  /** The visible characters of two blocks of parts, one after the other. */
  lemma NonSpaceConcat(a: seq<string>, b: seq<string>)
    ensures NonSpace(Concat(a + b)) == NonSpace(Concat(a)) + NonSpace(Concat(b))
  {
    ConcatAppend(a, b);
    NonSpaceAppend(Concat(a), Concat(b));
  }

  lemma NonSpaceConcatSnoc(a: seq<string>, x: string)
    ensures NonSpace(Concat(a + [x])) == NonSpace(Concat(a)) + NonSpace(x)
  {
    NonSpaceConcat(a, [x]);
    ConcatSingle(x);
  }

  /** `s` is its leading whitespace, its stripped text and its trailing whitespace; a string
      that starts (ends) with a visible character has no leading (trailing) whitespace. */
  lemma StripParts(s: string)
    ensures s == s[..StripStart(s)] + Strip(s) + s[StripEnd(s)..]
    ensures (s == [] || !IsSpace(s[0])) ==> StripStart(s) == 0
    ensures s != [] && !IsSpace(s[|s| - 1]) ==> StripEnd(s) == |s|
  {
    assert s == s[..StripStart(s)] + s[StripStart(s)..StripEnd(s)] + s[StripEnd(s)..];
  }

  lemma AllSpaceAppend(a: string, b: string)
    requires AllSpace(a) && AllSpace(b)
    ensures AllSpace(a + b)
  {
    forall i | 0 <= i < |a + b| ensures IsSpace((a + b)[i]) {
      if i >= |a| {
        assert (a + b)[i] == b[i - |a|];
      }
    }
  }

  lemma AppendAssoc<T>(a: seq<T>, b: seq<T>, c: seq<T>)
    ensures (a + b) + c == a + (b + c)
  {
  }

  /** A non-empty sequence is its prefix followed by its last element. */
  lemma LastSplit<T>(xs: seq<T>)
    requires xs != []
    ensures xs == xs[..|xs| - 1] + [xs[|xs| - 1]]
  {
  }

  lemma ConcatSingle(x: string)
    ensures Concat([x]) == x
  {
    assert Concat([x]) == x + Concat([]);
  }

  /** A join with a whitespace separator has the visible characters of the parts, in order. */
  lemma {:induction false} JoinKeepsNonSpace(sep: string, parts: seq<string>)
    requires AllSpace(sep)
    ensures NonSpace(Join(sep, parts)) == NonSpace(Concat(parts))
  {
    if |parts| > 1 {
      JoinKeepsNonSpace(sep, parts[1..]);
      NonSpaceAppend(parts[0] + sep, Join(sep, parts[1..]));
      NonSpaceAppend(parts[0], sep);
      NonSpaceOfSpaces(sep);
      NonSpaceAppend(parts[0], Concat(parts[1..]));
    } else if |parts| == 1 {
      assert parts[1..] == [];
      assert Concat(parts) == parts[0] + Concat([]) == parts[0];
    }
  }

  /** Joining non-empty stripped parts leaves the result stripped. */
  lemma {:induction false} JoinStripped(sep: string, parts: seq<string>)
    requires forall i :: 0 <= i < |parts| ==> parts[i] != "" && IsStripped(parts[i])
    ensures IsStripped(Join(sep, parts))
  {
    if |parts| > 1 {
      JoinStripped(sep, parts[1..]);
      var j := Join(sep, parts[1..]);
      assert parts[1..][0] == parts[1];
      JoinFirstLast(sep, parts[1..]);
      assert (parts[0] + sep + j)[0] == parts[0][0];
      assert (parts[0] + sep + j)[|parts[0] + sep + j| - 1] == j[|j| - 1];
    }
  }

  lemma {:induction false} JoinFirstLast(sep: string, parts: seq<string>)
    requires parts != [] && parts[|parts| - 1] != []
    ensures Join(sep, parts) != [] && Join(sep, parts)[|Join(sep, parts)| - 1] == parts[|parts| - 1][|parts[|parts| - 1]| - 1]
  {
    if |parts| > 1 {
      JoinFirstLast(sep, parts[1..]);
    }
  }

  predicate NoNewline(s: string) {
    '\n' !in s
  }

  predicate LinesWithoutNewline(lines: seq<string>) {
    forall i :: 0 <= i < |lines| ==> NoNewline(lines[i])
  }

  lemma LinesAppend(a: seq<string>, b: seq<string>)
    requires LinesWithoutNewline(a) && LinesWithoutNewline(b)
    ensures LinesWithoutNewline(a + b)
  {
  }

  /** A slice of a string without the character `c` holds no `c`. */
  lemma SliceWithout(s: string, a: nat, b: nat, c: char)
    requires c !in s && a <= b <= |s|
    ensures c !in s[a..b]
  {
    forall k | 0 <= k < b - a
      ensures s[a..b][k] != c
    {
      assert s[a..b][k] == s[a + k];
    }
  }

  /** Stripping a string without the character `c` leaves no `c`. */
  lemma StrippedWithout(s: string, c: char)
    requires c !in s
    ensures c !in Strip(s)
  {
    SliceWithout(s, StripStart(s), StripEnd(s), c);
  }

  lemma SliceWithoutNewline(s: string, a: nat, b: nat)
    requires NoNewline(s) && a <= b <= |s|
    ensures NoNewline(s[a..b])
  {
    SliceWithout(s, a, b, '\n');
  }

  lemma StrippedWithoutNewline(line: string)
    requires NoNewline(line)
    ensures NoNewline(Strip(line))
  {
    StrippedWithout(line, '\n');
  }

  lemma JoinWithoutNewline(sep: string, parts: seq<string>)
    requires NoNewline(sep) && LinesWithoutNewline(parts)
    ensures NoNewline(Join(sep, parts))
  {
    if '\n' in Join(sep, parts) {
      JoinChars(sep, parts, '\n');
    }
  }

  /** Every character of a join comes from a part or from the separator. */
  lemma {:induction false} JoinChars(sep: string, parts: seq<string>, c: char)
    requires c in Join(sep, parts)
    ensures c in sep || exists i :: 0 <= i < |parts| && c in parts[i]
  {
    if |parts| > 1 {
      if c !in parts[0] && c !in sep {
        JoinChars(sep, parts[1..], c);
        var i :| 0 <= i < |parts[1..]| && c in parts[1..][i];
        assert c in parts[i + 1];
      }
    }
  }

  /** The pieces of `s` between its '\n' characters (one more piece than there are '\n's). */
  function Pieces(s: string): (r: seq<string>)
    ensures |r| >= 1
    ensures forall i :: 0 <= i < |r| ==> '\n' !in r[i]
  {
    if s == [] then [""]
    else
      var rest := Pieces(s[1..]);
      if s[0] == '\n' then [""] + rest else [[s[0]] + rest[0]] + rest[1..]
  }

  /** Python's `str.splitlines()`, for text whose only line boundary is '\n':
      a final empty piece (text empty or ending in '\n') is not a line. */
  function SplitLines(s: string): (r: seq<string>)
    ensures forall i :: 0 <= i < |r| ==> '\n' !in r[i]
  {
    var p := Pieces(s);
    if p[|p| - 1] == "" then p[..|p| - 1] else p
  }

  lemma {:induction false} PiecesJoin(s: string)
    ensures Join("\n", Pieces(s)) == s
  {
    if s != [] {
      var rest := Pieces(s[1..]);
      PiecesJoin(s[1..]);
      if s[0] == '\n' {
        assert Join("\n", [""] + rest) == "" + "\n" + Join("\n", rest);
      } else if |rest| == 1 {
        assert Join("\n", rest) == rest[0];
      } else {
        assert Join("\n", rest) == rest[0] + "\n" + Join("\n", rest[1..]);
        assert ([[s[0]] + rest[0]] + rest[1..])[1..] == rest[1..];
      }
    }
  }

  lemma {:induction false} JoinPieces(parts: seq<string>)
    requires parts != []
    requires forall i :: 0 <= i < |parts| ==> '\n' !in parts[i]
    ensures Pieces(Join("\n", parts)) == parts
  {
    if |parts| == 1 {
      PiecesOfLine(parts[0]);
    } else {
      JoinPieces(parts[1..]);
      PiecesConsLine(parts[0], Join("\n", parts[1..]));
      assert [parts[0]] + parts[1..] == parts;
    }
  }

  lemma {:induction false} PiecesOfLine(s: string)
    requires '\n' !in s
    ensures Pieces(s) == [s]
  {
    if s != [] {
      assert '\n' !in s[1..] by {
        forall c | c in s[1..] ensures c in s {}
      }
      PiecesOfLine(s[1..]);
      assert [s[0]] + s[1..] == s;
    }
  }

  lemma {:induction false} PiecesConsLine(a: string, b: string)
    requires '\n' !in a
    ensures Pieces(a + "\n" + b) == [a] + Pieces(b)
  {
    if a == [] {
      assert ("" + "\n" + b)[1..] == b;
    } else {
      var s := a + "\n" + b;
      assert s[0] == a[0] && s[1..] == a[1..] + "\n" + b;
      assert '\n' !in a[1..] by {
        forall c | c in a[1..] ensures c in a {}
      }
      PiecesConsLine(a[1..], b);
      assert [a[0]] + a[1..] == a;
    }
  }

  /** The line breaks of `SplitLines` and of joining with '\n' undo each other:
      text is its lines joined by '\n', plus the final '\n' if it had one. */
  predicate EndsWithNewline(s: string) {
    s != [] && s[|s| - 1] == '\n'
  }

  lemma SplitLinesJoin(s: string)
    ensures s == Join("\n", SplitLines(s)) + (if EndsWithNewline(s) then "\n" else "")
  {
    if EndsWithNewline(s) {
      JoinWithNewlineEnd(s);
    } else if s == [] {
      assert SplitLines(s) == [];
    } else {
      LastPieceEmpty(s);
      assert SplitLines(s) == Pieces(s);
      PiecesJoin(s);
    }
  }

  lemma JoinWithNewlineEnd(s: string)
    requires EndsWithNewline(s)
    ensures s == Join("\n", SplitLines(s)) + "\n"
  {
    var p := Pieces(s);
    PiecesJoin(s);
    LastPieceEmpty(s);
    var init := p[..|p| - 1];
    assert p == init + [""];
    JoinSnoc("\n", init, "");
  }

  lemma {:induction false} LastPieceEmpty(s: string)
    ensures Pieces(s)[|Pieces(s)| - 1] == "" <==> (s == [] || s[|s| - 1] == '\n')
    ensures |Pieces(s)| == 1 && Pieces(s)[0] == "" ==> s == []
  {
    if s != [] {
      LastPieceEmpty(s[1..]);
    }
  }

  lemma SplitLinesOfJoin(lines: seq<string>)
    requires forall i :: 0 <= i < |lines| ==> '\n' !in lines[i]
    ensures SplitLines(Join("\n", lines + [""])) == lines
  {
    var parts := lines + [""];
    assert forall i :: 0 <= i < |parts| ==> '\n' !in parts[i];
    JoinPieces(parts);
    assert parts[..|parts| - 1] == lines;
  }
}
