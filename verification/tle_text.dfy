/**
 * Turning a CelesTrak reply into a (name, line1, line2) triple, as the ingest
 * loop in ingest_tles.py does with Python's `str.strip` and `str.splitlines`.
 */
module TleText {
  import opened Wrappers

  /** The characters Python's `str.strip()` removes (those for which `str.isspace()` holds). */
  predicate IsSpace(c: char)
  {
    c == ' ' || ('\t' <= c <= '\r') || ('\U{1C}' <= c <= '\U{1F}') ||
    c == '\U{85}' || c == '\U{A0}' || c == '\U{1680}' || ('\U{2000}' <= c <= '\U{200A}') ||
    c == '\U{2028}' || c == '\U{2029}' || c == '\U{202F}' || c == '\U{205F}' || c == '\U{3000}'
  }

  /** The characters at which Python's `str.splitlines()` breaks a line ("\r\n" counts once). */
  predicate IsLineBreak(c: char)
  {
    ('\n' <= c <= '\r') || ('\U{1C}' <= c <= '\U{1E}') ||
    c == '\U{85}' || c == '\U{2028}' || c == '\U{2029}'
  }

  predicate AllSpace(s: string)
  {
    forall i :: 0 <= i < |s| ==> IsSpace(s[i])
  }

  predicate NoLineBreak(s: string)
  {
    forall i :: 0 <= i < |s| ==> !IsLineBreak(s[i])
  }

  /** Where the text of `s` starts: everything before is whitespace, and that position is not. */
  function TextStart(s: string): (i: nat)
    ensures i <= |s| && AllSpace(s[..i])
    ensures i < |s| ==> !IsSpace(s[i])
  {
    if s == [] || !IsSpace(s[0]) then 0
    else
      var i := TextStart(s[1..]) + 1;
      assert forall k :: 1 <= k < i ==> s[..i][k] == s[1..][..i - 1][k - 1];
      i
  }

  /** Where the text of `s[lo..]` ends: everything after is whitespace, and the position before is not. */
  function TextEnd(s: string, lo: nat): (j: nat)
    requires lo <= |s|
    ensures lo <= j <= |s| && AllSpace(s[j..])
    ensures lo < j ==> !IsSpace(s[j - 1])
    decreases |s|
  {
    if |s| == lo || !IsSpace(s[|s| - 1]) then |s|
    else
      var j := TextEnd(s[..|s| - 1], lo);
      assert forall k :: 0 <= k < |s| - j ==> s[j..][k] == (s[..|s| - 1][j..] + [s[|s| - 1]])[k];
      j
  }

  /** Python's `s.strip()`. */
  function Strip(s: string): (r: string)
    ensures |r| <= |s|
    ensures r == [] || (!IsSpace(r[0]) && !IsSpace(r[|r| - 1]))
  {
    var i := TextStart(s);
    s[i..TextEnd(s, i)]
  }

  /** Where the first line break at or after `i` is, or |s| when there is none. */
  function NextBreak(s: string, i: nat): (k: nat)
    requires i <= |s|
    ensures i <= k <= |s|
    ensures forall m :: i <= m < k ==> !IsLineBreak(s[m])
    ensures k < |s| ==> IsLineBreak(s[k])
    decreases |s| - i
  {
    if i == |s| || IsLineBreak(s[i]) then i else NextBreak(s, i + 1)
  }

  /** Python's `s.splitlines()`: a line break ends a line; no empty line follows a final break. */
  function SplitLines(s: string): (lines: seq<string>)
    ensures forall j :: 0 <= j < |lines| ==> NoLineBreak(lines[j])
    decreases |s|
  {
    if s == [] then []
    else
      var k := NextBreak(s, 0);
      if k == |s| then [s]
      else
        var width := if s[k] == '\r' && k + 1 < |s| && s[k + 1] == '\n' then 2 else 1;
        [s[..k]] + SplitLines(s[k + width..])
  }

  /** The lines joined back with `sep` between them. */
  function JoinLines(lines: seq<string>, sep: string): string
  {
    if lines == [] then []
    else if |lines| == 1 then lines[0]
    else lines[0] + sep + JoinLines(lines[1..], sep)
  }

  /** The line ends a reply can use between its lines: "\n" or "\r\n". */
  predicate IsSeparator(sep: string)
  {
    sep == "\n" || sep == "\r\n"
  }

  /** The three lines of one element set: the object's name and the two element lines. */
  datatype TleTriple = TleTriple(name: string, line1: string, line2: string)

  /** Why a reply is skipped: the fetch did not succeed, or fewer than three lines came back. */
  datatype Skip = NotFetched | Incomplete

  /**
   * The handling of one reply in the ingest loop. A reply is not fetched
   * exactly when its status is not 200 or its text is only whitespace; a
   * triple it yields is made of stripped lines with no line break in them.
   */
  function ParseResponse(status: int, text: string): (r: Result<TleTriple, Skip>)
    ensures r == Failure(NotFetched) <==> status != 200 || AllSpace(text)
    ensures r.Success? ==> status == 200 && Trimmed(r.value.name) && Trimmed(r.value.line1) && Trimmed(r.value.line2)
  {
    StripEmptyIffAllSpace(text);
    if !(status == 200 && Strip(text) != []) then Failure(NotFetched)
    else
      var lines := SplitLines(Strip(text));
      if |lines| < 3 then Failure(Incomplete)
      else
        TrimmedStrip(lines[0]);
        TrimmedStrip(lines[1]);
        TrimmedStrip(lines[2]);
        Success(TleTriple(Strip(lines[0]), Strip(lines[1]), Strip(lines[2])))
  }

  /** Text without surrounding whitespace and without line breaks. */
  predicate Trimmed(s: string)
  {
    Strip(s) == s && NoLineBreak(s)
  }

  // ---------------------------------------------------------------------------
  // Properties of Strip

  /** Text without surrounding whitespace is left as it is by `Strip`, so `Strip` is idempotent. */
  lemma StripKeepsTrimmed(s: string)
    requires s == [] || (!IsSpace(s[0]) && !IsSpace(s[|s| - 1]))
    ensures Strip(s) == s
  {
    if s != [] {
      assert TextStart(s) == 0;
      assert TextEnd(s, 0) == |s|;
    }
  }

  lemma StripIdempotent(s: string)
    ensures Strip(Strip(s)) == Strip(s)
  {
    StripKeepsTrimmed(Strip(s));
  }

  /** `Strip` removes only surrounding whitespace: its result is a slice of the input with whitespace on both sides. */
  lemma StripIsSlice(s: string)
    ensures exists i, j :: 0 <= i <= j <= |s| && Strip(s) == s[i..j] && AllSpace(s[..i]) && AllSpace(s[j..])
  {
    var i := TextStart(s);
    var j := TextEnd(s, i);
    assert Strip(s) == s[i..j];
  }

  /** A stripped line holds no line break when the line held none, and is left as it is by a second strip. */
  lemma TrimmedStrip(s: string)
    requires NoLineBreak(s)
    ensures Trimmed(Strip(s))
  {
    StripIdempotent(s);
    var i := TextStart(s);
    var j := TextEnd(s, i);
    assert forall k :: 0 <= k < j - i ==> s[i..j][k] == s[i + k];
  }

  /** Stripping gives nothing exactly when the text is all whitespace. */
  lemma StripEmptyIffAllSpace(s: string)
    ensures Strip(s) == [] <==> AllSpace(s)
  {
    var i := TextStart(s);
    assert i == |s| ==> s[..i] == s;
    assert i < |s| ==> s[i..][0] == s[i];
  }

  /** Text with some non-whitespace character starts and ends it within the text. */
  lemma TextBounds(s: string)
    requires !AllSpace(s)
    ensures TextStart(s) < |s| && 0 < TextEnd(s, 0)
  {
    assert s[..|s|] == s;
    assert s[0..] == s;
  }

  lemma SpaceBefore(s: string, i: nat)
    requires i <= |s| && AllSpace(s[..i])
    ensures forall k :: 0 <= k < i ==> IsSpace(s[k])
  {
    assert forall k :: 0 <= k < i ==> s[..i][k] == s[k];
  }

  lemma SpaceAfter(s: string, j: nat)
    requires j <= |s| && AllSpace(s[j..])
    ensures forall k :: j <= k < |s| ==> IsSpace(s[k])
  {
    forall k | j <= k < |s| ensures IsSpace(s[k]) {
      assert s[j..][k - j] == s[k];
    }
  }

  /** `Strip` cuts exactly at any pair of positions with only whitespace outside and text at both ends. */
  lemma StripUnique(s: string, i: nat, j: nat)
    requires i < j <= |s| && AllSpace(s[..i]) && AllSpace(s[j..]) && !IsSpace(s[i]) && !IsSpace(s[j - 1])
    ensures Strip(s) == s[i..j]
  {
    SpaceBefore(s, i);
    SpaceAfter(s, j);
    StripUniqueAt(s, i, j);
  }

  lemma StripUniqueAt(s: string, i: nat, j: nat)
    requires i < j <= |s| && !IsSpace(s[i]) && !IsSpace(s[j - 1])
    requires forall k :: 0 <= k < i ==> IsSpace(s[k])
    requires forall k :: j <= k < |s| ==> IsSpace(s[k])
    ensures Strip(s) == s[i..j]
  {
    var t := TextStart(s);
    SpaceBefore(s, t);
    assert t == i;
    var e := TextEnd(s, t);
    SpaceAfter(s, e);
  }

  /** Where the text of `s` starts and ends lies inside any whitespace-padded window around it. */
  lemma PadBounds(s: string, a: nat, b: nat)
    requires a <= b <= |s| && AllSpace(s[..a]) && AllSpace(s[b..]) && !AllSpace(s)
    ensures a <= TextStart(s) < TextEnd(s, TextStart(s)) <= b
  {
    TextBounds(s);
    SpaceBefore(s, a);
    SpaceAfter(s, b);
    SpaceAfter(s, TextEnd(s, TextStart(s)));
  }

  /** `Strip` of a window cuts at the text positions of the window's own text. */
  lemma StripWindow(s: string, a: nat, b: nat, i: nat, j: nat)
    requires a <= i < j <= b <= |s| && !IsSpace(s[i]) && !IsSpace(s[j - 1])
    requires forall k :: a <= k < i ==> IsSpace(s[k])
    requires forall k :: j <= k < b ==> IsSpace(s[k])
    ensures Strip(s[a..b]) == s[i..j]
  {
    var t := s[a..b];
    forall k | 0 <= k < |t| ensures t[k] == s[a + k] {}
    StripUniqueAt(t, i - a, j - a);
    SliceOfSlice(s, a, b, i - a, j - a);
  }

  /** Whitespace removed from the ends beforehand does not change what `Strip` gives. */
  lemma StripPadding(s: string, a: nat, b: nat)
    requires a <= b <= |s| && AllSpace(s[..a]) && AllSpace(s[b..]) && !AllSpace(s)
    ensures Strip(s[a..b]) == Strip(s)
  {
    PadBounds(s, a, b);
    var i := TextStart(s);
    var j := TextEnd(s, i);
    SpaceBefore(s, i);
    SpaceAfter(s, j);
    StripWindow(s, a, b, i, j);
  }

  lemma SplitAt(s: string, i: nat)
    requires i <= |s|
    ensures s == s[..i] + s[i..]
  {
  }

  lemma SplitAt2(s: string, i: nat, j: nat)
    requires i <= j <= |s|
    ensures s == s[..i] + s[i..j] + s[j..]
  {
  }

  lemma SliceOfSlice(s: string, a: nat, b: nat, x: nat, y: nat)
    requires a <= b <= |s| && x <= y <= b - a
    ensures s[a..b][x..y] == s[a + x..a + y]
  {
    assert forall k :: 0 <= k < y - x ==> s[a..b][x..y][k] == s[a + x + k];
  }

  lemma AllSpaceConcat(a: string, b: string)
    requires AllSpace(a) && AllSpace(b)
    ensures AllSpace(a + b)
  {
    forall k | 0 <= k < |a + b| ensures IsSpace((a + b)[k]) {
      if k >= |a| {
        assert (a + b)[k] == b[k - |a|];
      }
    }
  }

  // ---------------------------------------------------------------------------
  // Properties of SplitLines and JoinLines

  /** Splitting joined lines gives the lines back, when none holds a break and the last is not empty. */
  lemma {:induction false} SplitJoin(lines: seq<string>, sep: string)
    requires IsSeparator(sep)
    requires lines != [] && lines[|lines| - 1] != []
    requires forall j :: 0 <= j < |lines| ==> NoLineBreak(lines[j])
    ensures SplitLines(JoinLines(lines, sep)) == lines
  {
    var s := JoinLines(lines, sep);
    var first := lines[0];
    if |lines| == 1 {
      assert NextBreak(s, 0) == |s| by { NextBreakSkipsLine(s, first, 0); }
    } else {
      var rest := JoinLines(lines[1..], sep);
      assert s == first + sep + rest;
      assert s[|first|] == sep[0];
      NextBreakSkipsLine(s, first, 0);
      assert NextBreak(s, 0) == |first|;
      SplitJoin(lines[1..], sep);
      JoinNonEmpty(lines[1..], sep);
      assert s[|first| + |sep|..] == rest;
      assert s[..|first|] == first;
      assert [first] + lines[1..] == lines;
    }
  }

  /** Joined lines whose last line is non-empty are non-empty. */
  lemma {:induction false} JoinNonEmpty(lines: seq<string>, sep: string)
    requires lines != [] && lines[|lines| - 1] != []
    ensures JoinLines(lines, sep) != []
  {
    if |lines| > 1 {
      JoinNonEmpty(lines[1..], sep);
    }
  }

  /** Within a prefix `line` of `s` free of breaks, the next break is at its end. */
  lemma NextBreakSkipsLine(s: string, line: string, i: nat)
    requires |line| <= |s| && s[..|line|] == line && NoLineBreak(line) && i <= |line|
    requires |line| < |s| ==> IsLineBreak(s[|line|])
    ensures NextBreak(s, i) == |line|
    decreases |line| - i
  {
    if i < |line| {
      assert s[i] == line[i];
      NextBreakSkipsLine(s, line, i + 1);
    }
  }

  /** Joined non-empty lines start with the first line's first character and end with the last line's last. */
  lemma {:induction false} JoinEnds(lines: seq<string>, sep: string)
    requires lines != [] && forall j :: 0 <= j < |lines| ==> lines[j] != []
    ensures var s := JoinLines(lines, sep); var z := lines[|lines| - 1];
      s != [] && s[0] == lines[0][0] && s[|s| - 1] == z[|z| - 1]
  {
    if |lines| > 1 {
      JoinEnds(lines[1..], sep);
    }
  }

  /** A line without the whitespace in front of its text. */
  function DropLead(s: string): string
  {
    s[TextStart(s)..]
  }

  /** A line without the whitespace after its text. */
  function DropTrail(s: string): string
  {
    s[..TextEnd(s, 0)]
  }

  /** The lines without the whitespace in front of the first line's text and after the last line's text. */
  function TrimOuter(lines: seq<string>): (r: seq<string>)
    requires lines != []
    ensures |r| == |lines|
  {
    if |lines| == 1 then [Strip(lines[0])]
    else [DropLead(lines[0])] + lines[1..|lines| - 1] + [DropTrail(lines[|lines| - 1])]
  }

  lemma DropLeadFacts(s: string)
    requires !AllSpace(s) && NoLineBreak(s)
    ensures var r := DropLead(s); r != [] && !IsSpace(r[0]) && NoLineBreak(r) && Strip(r) == Strip(s)
  {
    TextBounds(s);
    var i := TextStart(s);
    assert s[i..][0] == s[i];
    SliceNoBreak(s, i, |s|);
    assert s[|s|..] == [];
    StripPadding(s, i, |s|);
    assert s[i..] == s[i..|s|];
  }

  lemma DropTrailFacts(s: string)
    requires !AllSpace(s) && NoLineBreak(s)
    ensures var r := DropTrail(s); r != [] && !IsSpace(r[|r| - 1]) && NoLineBreak(r) && Strip(r) == Strip(s)
  {
    TextBounds(s);
    var e := TextEnd(s, 0);
    assert s[..e][e - 1] == s[e - 1];
    SliceNoBreak(s, 0, e);
    assert s[..0] == [];
    StripPadding(s, 0, e);
    assert s[..e] == s[0..e];
  }

  lemma StripFacts(s: string)
    requires !AllSpace(s) && NoLineBreak(s)
    ensures var r := Strip(s); r != [] && NoLineBreak(r) && Strip(r) == r
  {
    StripEmptyIffAllSpace(s);
    TrimmedStrip(s);
  }

  lemma SliceNoBreak(s: string, a: nat, b: nat)
    requires a <= b <= |s| && NoLineBreak(s)
    ensures NoLineBreak(s[a..b])
  {
    assert forall k :: 0 <= k < b - a ==> s[a..b][k] == s[a + k];
  }

  /** The text between whitespace-only ends is what `Strip` gives. */
  lemma StripAround(pre: string, body: string, post: string)
    requires AllSpace(pre) && AllSpace(post) && body != [] && !IsSpace(body[0]) && !IsSpace(body[|body| - 1])
    ensures Strip(pre + body + post) == body
  {
    var text := pre + body + post;
    assert text[..|pre|] == pre && text[|pre| + |body|..] == post;
    assert text[|pre|] == body[0] && text[|pre| + |body| - 1] == body[|body| - 1];
    StripUnique(text, |pre|, |pre| + |body|);
    assert text[|pre|..|pre| + |body|] == body;
  }

  /** Text after the last line stays after the joined lines. */
  lemma {:induction false} JoinLastOf(init: seq<string>, y: string, q: string, sep: string)
    ensures JoinLines(init + [y + q], sep) == JoinLines(init + [y], sep) + q
  {
    if init != [] {
      assert (init + [y + q])[1..] == init[1..] + [y + q];
      assert (init + [y])[1..] == init[1..] + [y];
      JoinLastOf(init[1..], y, q, sep);
    }
  }

  /** Line j of the trimmed lines: non-empty, free of breaks, and stripped to the same text as the sent line. */
  lemma TrimOuterAt(lines: seq<string>, j: nat)
    requires j < |lines| && !AllSpace(lines[j]) && NoLineBreak(lines[j])
    ensures var r := TrimOuter(lines)[j]; r != [] && NoLineBreak(r) && Strip(r) == Strip(lines[j])
  {
    var n := |lines|;
    var r := TrimOuter(lines)[j];
    if n == 1 {
      assert r == Strip(lines[j]);
      StripFacts(lines[j]);
    } else if j == 0 {
      assert r == DropLead(lines[j]);
      DropLeadFacts(lines[j]);
    } else if j == n - 1 {
      assert r == DropTrail(lines[j]);
      DropTrailFacts(lines[j]);
    } else {
      assert r == lines[j];
    }
  }

  /** The joined lines are the joined trimmed lines with the outer whitespace of the first and last line around them. */
  lemma JoinTrimmedLines(lines: seq<string>, sep: string) returns (p: string, q: string)
    requires lines != []
    requires forall j :: 0 <= j < |lines| ==> !AllSpace(lines[j]) && NoLineBreak(lines[j])
    ensures AllSpace(p) && AllSpace(q) && JoinLines(lines, sep) == p + JoinLines(TrimOuter(lines), sep) + q
  {
    if |lines| == 1 {
      var s0 := lines[0];
      var i := TextStart(s0);
      var j := TextEnd(s0, i);
      p, q := s0[..i], s0[j..];
      SplitAt2(s0, i, j);
    } else {
      p, q := JoinTrimmedMany(lines, sep);
    }
  }

  lemma JoinTrimmedMany(lines: seq<string>, sep: string) returns (p: string, q: string)
    requires |lines| > 1
    ensures AllSpace(p) && AllSpace(q) && JoinLines(lines, sep) == p + JoinLines(TrimOuter(lines), sep) + q
  {
    var n := |lines|;
    var s0, z := lines[0], lines[n - 1];
    var i, e := TextStart(s0), TextEnd(z, 0);
    var x, y := DropLead(s0), DropTrail(z);
    p, q := s0[..i], z[e..];
    var mid := lines[1..n - 1];
    var tail := JoinLines(mid + [y], sep);
    assert JoinLines(lines, sep) == (p + x) + sep + (tail + q) by {
      SplitAt(s0, i);
      SplitAt(z, e);
      assert lines[1..] == mid + [y + q];
      JoinLastOf(mid, y, q, sep);
    }
    assert JoinLines(TrimOuter(lines), sep) == x + sep + tail by {
      var r := TrimOuter(lines);
      assert r[0] == x && r[1..] == mid + [y];
    }
    Regroup(p, x, sep, tail, q);
  }

  lemma Regroup(a: string, b: string, c: string, d: string, e: string)
    ensures (a + b) + c + (d + e) == a + (b + c + d) + e
  {
  }

  /** The joined trimmed lines start and end with text. */
  lemma TrimOuterEnds(lines: seq<string>, sep: string)
    requires lines != []
    requires forall j :: 0 <= j < |lines| ==> !AllSpace(lines[j]) && NoLineBreak(lines[j])
    ensures var J := JoinLines(TrimOuter(lines), sep); J != [] && !IsSpace(J[0]) && !IsSpace(J[|J| - 1])
  {
    var n := |lines|;
    var r := TrimOuter(lines);
    if n == 1 {
      StripFacts(lines[0]);
    } else {
      DropLeadFacts(lines[0]);
      DropTrailFacts(lines[n - 1]);
      forall j | 0 <= j < n ensures r[j] != [] {
        TrimOuterAt(lines, j);
      }
      JoinEnds(r, sep);
    }
  }

  /** Stripping a whole reply removes its surrounding whitespace and the outer whitespace of its first and last lines. */
  lemma TrimOuterJoin(lead: string, lines: seq<string>, sep: string, trail: string)
    requires AllSpace(lead) && AllSpace(trail) && lines != []
    requires forall j :: 0 <= j < |lines| ==> !AllSpace(lines[j]) && NoLineBreak(lines[j])
    ensures Strip(lead + JoinLines(lines, sep) + trail) == JoinLines(TrimOuter(lines), sep)
  {
    var J := JoinLines(TrimOuter(lines), sep);
    var p, q := JoinTrimmedLines(lines, sep);
    assert Strip((lead + p) + J + (q + trail)) == J by {
      TrimOuterEnds(lines, sep);
      AllSpaceConcat(lead, p);
      AllSpaceConcat(q, trail);
      StripAround(lead + p, J, q + trail);
    }
    Regroup(lead, p, J, q, trail);
  }

  /**
   * Stripping a reply and splitting it gives back one line per line sent, each
   * equal to the sent line up to its surrounding whitespace, whatever the line
   * ends and whatever whitespace surrounds the reply, as long as every line
   * holds some text and no break.
   */
  lemma StripSplitPadded(lead: string, lines: seq<string>, sep: string, trail: string)
    requires IsSeparator(sep) && AllSpace(lead) && AllSpace(trail) && lines != []
    requires forall j :: 0 <= j < |lines| ==> !AllSpace(lines[j]) && NoLineBreak(lines[j])
    ensures var out := SplitLines(Strip(lead + JoinLines(lines, sep) + trail));
      |out| == |lines| && forall j :: 0 <= j < |lines| ==> Strip(out[j]) == Strip(lines[j])
  {
    var l2 := TrimOuter(lines);
    TrimOuterJoin(lead, lines, sep, trail);
    forall j | 0 <= j < |lines| ensures l2[j] != [] && NoLineBreak(l2[j]) && Strip(l2[j]) == Strip(lines[j]) {
      TrimOuterAt(lines, j);
    }
    SplitJoin(l2, sep);
  }

  /**
   * A status-200 reply of three or more lines, each holding some text, yields
   * its first three lines, each stripped; further lines are ignored. The lines
   * may end in "\n" or "\r\n" and carry whitespace around them, and so may
   * the reply as a whole.
   */
  lemma ParseWellFormedReply(lead: string, lines: seq<string>, sep: string, trail: string)
    requires IsSeparator(sep) && AllSpace(lead) && AllSpace(trail) && |lines| >= 3
    requires forall j :: 0 <= j < |lines| ==> !AllSpace(lines[j]) && NoLineBreak(lines[j])
    ensures ParseResponse(200, lead + JoinLines(lines, sep) + trail) ==
      Success(TleTriple(Strip(lines[0]), Strip(lines[1]), Strip(lines[2])))
  {
    StripSplitPadded(lead, lines, sep, trail);
  }

  /** The reply "A \r\nB\r\nC\r\n": padding and "\r\n" line ends are removed. */
  lemma CrlfReply()
    ensures ParseResponse(200, "A \r\nB\r\nC\r\n") == Success(TleTriple("A", "B", "C"))
  {
    var lines := ["A ", "B", "C"];
    CrlfLines(lines);
    ParseWellFormedReply("", lines, "\r\n", "\r\n");
    CrlfText(lines);
    CrlfStrips();
  }

  lemma CrlfText(lines: seq<string>)
    requires lines == ["A ", "B", "C"]
    ensures "" + JoinLines(lines, "\r\n") + "\r\n" == "A \r\nB\r\nC\r\n"
  {
    assert JoinLines(lines[2..], "\r\n") == "C";
    assert JoinLines(lines[1..], "\r\n") == "B\r\nC";
  }

  lemma CrlfLines(lines: seq<string>)
    requires lines == ["A ", "B", "C"]
    ensures forall j :: 0 <= j < |lines| ==> !AllSpace(lines[j]) && NoLineBreak(lines[j])
  {
    assert !IsSpace(lines[0][0]) && !IsSpace(lines[1][0]) && !IsSpace(lines[2][0]);
  }

  lemma CrlfStrips()
    ensures Strip("A ") == "A" && Strip("B") == "B" && Strip("C") == "C"
  {
    StripUnique("A ", 0, 1);
    StripKeepsTrimmed("B");
    StripKeepsTrimmed("C");
  }

  /** Any status other than 200, or a reply of only whitespace, is skipped and yields nothing. */
  lemma NotFetchedReplies(status: int, text: string)
    requires status != 200 || AllSpace(text)
    ensures ParseResponse(status, text) == Failure(NotFetched)
  {
    StripEmptyIffAllSpace(text);
  }

  /**
   * A status-200 reply of one or two lines, each holding some text, is skipped
   * as incomplete, whatever its line ends and surrounding whitespace.
   */
  lemma ShortReplies(lead: string, lines: seq<string>, sep: string, trail: string)
    requires IsSeparator(sep) && AllSpace(lead) && AllSpace(trail) && 1 <= |lines| <= 2
    requires forall j :: 0 <= j < |lines| ==> !AllSpace(lines[j]) && NoLineBreak(lines[j])
    ensures ParseResponse(200, lead + JoinLines(lines, sep) + trail) == Failure(Incomplete)
  {
    StripSplitPadded(lead, lines, sep, trail);
  }
}
