// Files of newline-terminated lines, with perhaps an incomplete one at the end.

module Lines {
  import opened Bytes

  const NEWLINE: byte := 10

  /** Index of the first newline, or the length. */
  function FindNewline(data: seq<byte>): (i: nat)
    ensures i <= |data| && (i < |data| ==> data[i] == NEWLINE) && NEWLINE !in data[..i]
  {
    if data == [] || data[0] == NEWLINE then 0
    else
      var i := 1 + FindNewline(data[1..]);
      assert data[..i] == [data[0]] + data[1..][..i - 1];
      i
  }

  lemma {:induction false} NewlineAt(data: seq<byte>, i: nat)
    requires i < |data| && data[i] == NEWLINE && NEWLINE !in data[..i]
    ensures FindNewline(data) == i
  {
    if i > 0 {
      assert data[..i][0] == data[0];
      assert data[1..][..i - 1] == data[..i][1..];
      NewlineAt(data[1..], i - 1);
    }
  }

  lemma NoNewline(data: seq<byte>)
    requires NEWLINE !in data
    ensures FindNewline(data) == |data|
  {
  }

  /** Data is a first line and what follows it, or an incomplete line. */
  lemma SplitLine(data: seq<byte>)
    ensures var i := FindNewline(data);
            && NEWLINE !in data[..i]
            && (i < |data| ==> data == data[..i] + [NEWLINE] + data[i + 1..])
  {
    hide FindNewline;
  }

  /** The complete lines, without their newlines. */
  function Whole(data: seq<byte>): (lines: seq<seq<byte>>)
    decreases |data|
  {
    var i := FindNewline(data);
    if i == |data| then [] else [data[..i]] + Whole(data[i + 1..])
  }

  /** What follows the last newline. */
  function Torn(data: seq<byte>): (tail: seq<byte>)
    decreases |data|
  {
    var i := FindNewline(data);
    if i == |data| then data else Torn(data[i + 1..])
  }

  function Unlines(lines: seq<seq<byte>>): seq<byte> {
    if lines == [] then [] else lines[0] + [NEWLINE] + Unlines(lines[1..])
  }

  predicate AreLines(lines: seq<seq<byte>>) {
    forall i | 0 <= i < |lines| :: NEWLINE !in lines[i]
  }

  lemma {:induction false} FileIsLines(data: seq<byte>)
    ensures data == Unlines(Whole(data)) + Torn(data)
    ensures AreLines(Whole(data)) && NEWLINE !in Torn(data)
    decreases |data|
  {
    hide FindNewline, Whole, Torn, Unlines;
    var i := FindNewline(data);
    SplitLine(data);
    WholeStep(data);
    TornStep(data);
    if i < |data| {
      var line, rest := data[..i], data[i + 1..];
      var lines, tail := Whole(rest), Torn(rest);
      FileIsLines(rest);
      UnlinesCons(line, lines);
      Regroup(line + [NEWLINE], Unlines(lines), tail);
    } else {
      assert data[..i] == data;
      NoUnlines();
    }
  }

  lemma WholeStep(data: seq<byte>)
    ensures var i := FindNewline(data);
            Whole(data) == if i == |data| then [] else [data[..i]] + Whole(data[i + 1..])
  {
    hide FindNewline;
  }

  lemma TornStep(data: seq<byte>)
    ensures var i := FindNewline(data);
            Torn(data) == if i == |data| then data else Torn(data[i + 1..])
  {
    hide FindNewline;
  }

  lemma NoUnlines()
    ensures Unlines([]) == []
  {
  }

  lemma Regroup(a: seq<byte>, b: seq<byte>, c: seq<byte>)
    ensures a + (b + c) == (a + b) + c
  {
  }

  lemma UnlinesCons(line: seq<byte>, lines: seq<seq<byte>>)
    ensures Unlines([line] + lines) == line + [NEWLINE] + Unlines(lines)
  {
    assert ([line] + lines)[1..] == lines;
  }

  lemma OnlyTail(tail: seq<byte>)
    requires NEWLINE !in tail
    ensures Whole(tail) == [] && Torn(tail) == tail
  {
    NoNewline(tail);
  }

  lemma FirstLine(line: seq<byte>, rest: seq<byte>)
    requires NEWLINE !in line
    ensures Whole(line + [NEWLINE] + rest) == [line] + Whole(rest)
    ensures Torn(line + [NEWLINE] + rest) == Torn(rest)
  {
    hide FindNewline;
    var data := line + [NEWLINE] + rest;
    assert data[..|line|] == line && data[|line| + 1..] == rest;
    NewlineAt(data, |line|);
  }

  lemma {:induction false} LinesOfFile(lines: seq<seq<byte>>, tail: seq<byte>)
    requires AreLines(lines) && NEWLINE !in tail
    ensures Whole(Unlines(lines) + tail) == lines && Torn(Unlines(lines) + tail) == tail
  {
    hide FindNewline, Whole, Torn;
    var data := Unlines(lines) + tail;
    if lines == [] {
      assert data == tail;
      OnlyTail(tail);
    } else {
      var line, rest := lines[0], Unlines(lines[1..]) + tail;
      LinesOfFile(lines[1..], tail);
      assert data == line + [NEWLINE] + rest;
      FirstLine(line, rest);
      assert [line] + lines[1..] == lines;
    }
  }

  lemma {:induction false} UnlinesConcat(a: seq<seq<byte>>, b: seq<seq<byte>>)
    ensures Unlines(a + b) == Unlines(a) + Unlines(b)
  {
    hide Unlines;
    if a == [] {
      assert a + b == b;
      NoUnlines();
    } else {
      UnlinesConcat(a[1..], b);
      assert a + b == [a[0]] + (a[1..] + b) && a == [a[0]] + a[1..];
      UnlinesCons(a[0], a[1..] + b);
      UnlinesCons(a[0], a[1..]);
      Regroup(a[0] + [NEWLINE], Unlines(a[1..]), Unlines(b));
    }
  }
}

/** How decoded text is cut into lines and stripped, on its UTF-8 bytes. */
module TextLines {
  import opened Bytes
  import opened Lines

  /**
    Length of the line boundary at the start, or 0: CR LF together, LF, VT, FF,
    CR, FS, GS, RS, and the characters NEL, LS and PS.
  */
  function BreakLength(s: seq<byte>): (n: nat)
    ensures n <= |s|
  {
    if s == [] then 0
    else if s[0] == 13 && |s| > 1 && s[1] == 10 then 2
    else if 10 <= s[0] <= 13 || 28 <= s[0] <= 30 then 1
    else if |s| > 1 && s[0] == 0xC2 && s[1] == 0x85 then 2
    else if |s| > 2 && s[0] == 0xE2 && s[1] == 0x80 && 0xA8 <= s[2] <= 0xA9 then 3
    else 0
  }

  function FirstBreak(s: seq<byte>): (i: nat)
    ensures i <= |s| && (i < |s| ==> BreakLength(s[i..]) > 0)
  {
    if s == [] then 0
    else if BreakLength(s) > 0 then
      assert s[0..] == s;
      0
    else
      var rest := FirstBreak(s[1..]);
      assert s[1 + rest..] == s[1..][rest..];
      1 + rest
  }

  /** The first place where a boundary begins. */
  lemma {:induction false} FirstBreakMeans(s: seq<byte>)
    ensures forall j: nat | j < FirstBreak(s) :: BreakLength(s[j..]) == 0
  {
    hide BreakLength;
    if s != [] && BreakLength(s) == 0 {
      FirstBreakMeans(s[1..]);
      forall j: nat | j < FirstBreak(s)
        ensures BreakLength(s[j..]) == 0
      {
        if j == 0 {
          assert s[0..] == s;
        } else {
          assert s[j..] == s[1..][j - 1..];
        }
      }
    }
  }

  /** `splitlines`: the text between boundaries; nothing after a last boundary. */
  function SplitLines(s: seq<byte>): seq<seq<byte>>
    decreases |s|
  {
    if s == [] then []
    else
      var i := FirstBreak(s);
      if i == |s| then [s] else [s[..i]] + SplitLines(s[i + BreakLength(s[i..])..])
  }

  /** Length of the white space character at the start, or 0. */
  function WhiteLength(s: seq<byte>): (n: nat)
    ensures n <= |s|
  {
    if s == [] then 0
    else if 9 <= s[0] <= 13 || 28 <= s[0] <= 32 then 1
    else if |s| > 1 && s[0] == 0xC2 && (s[1] == 0x85 || s[1] == 0xA0) then 2
    else if |s| <= 2 then 0
    else if s[0] == 0xE1 && s[1] == 0x9A && s[2] == 0x80 then 3
    else if s[0] == 0xE2 && s[1] == 0x80 && (0x80 <= s[2] <= 0x8A || 0xA8 <= s[2] <= 0xA9 || s[2] == 0xAF) then 3
    else if s[0] == 0xE2 && s[1] == 0x81 && s[2] == 0x9F then 3
    else if s[0] == 0xE3 && s[1] == 0x80 && s[2] == 0x80 then 3
    else 0
  }

  /** Nothing is left after stripping. */
  predicate Blank(s: seq<byte>) {
    s == [] || (WhiteLength(s) > 0 && Blank(s[WhiteLength(s)..]))
  }

  function NonBlank(lines: seq<seq<byte>>): seq<seq<byte>> {
    if lines == [] then []
    else (if Blank(lines[0]) then [] else [lines[0]]) + NonBlank(lines[1..])
  }

  /** The lines that are kept: the n-th of them is the n-th that is not blank. */
  lemma {:induction false} NonBlankExact(lines: seq<seq<byte>>, n: nat)
    ensures |NonBlank(lines)| == |KeptLines(lines)|
    ensures n in KeptLines(lines) ==>
              && |KeptLines(lines[..n])| < |NonBlank(lines)|
              && NonBlank(lines)[|KeptLines(lines[..n])|] == lines[n]
    decreases |lines|
  {
    hide Blank;
    if lines == [] {
      assert KeptLines(lines) == {};
    } else {
      var k := |lines| - 1;
      var before := lines[..k];
      assert lines == before + [lines[k]];
      NonBlankExact(before, n);
      NonBlankSnoc(before, lines[k]);
      assert k !in KeptLines(before);
      assert KeptLines(lines) == KeptLines(before) + if Blank(lines[k]) then {} else {k};
      if n < k {
        assert before[..n] == lines[..n];
      }
    }
  }

  ghost function KeptLines(lines: seq<seq<byte>>): set<nat> {
    set n: nat | n < |lines| && !Blank(lines[n])
  }

  lemma {:induction false} NonBlankSnoc(lines: seq<seq<byte>>, last: seq<byte>)
    ensures NonBlank(lines + [last]) == NonBlank(lines) + if Blank(last) then [] else [last]
  {
    hide Blank;
    if lines == [] {
      assert [] + [last] == [last];
    } else {
      assert (lines + [last])[1..] == lines[1..] + [last];
      NonBlankSnoc(lines[1..], last);
    }
  }

  /** Text that is one line by every boundary, and not blank; JSON escaped to ASCII is. */
  predicate Plain(line: seq<byte>) {
    Utf8(line) && !Blank(line) && FirstBreak(line) == |line|
  }

  lemma {:induction false} AsciiIsUtf8(s: seq<byte>)
    requires forall i | 0 <= i < |s| :: s[i] <= 0x7F
    ensures Utf8(s)
  {
    if s != [] {
      AsciiIsUtf8(s[1..]);
    }
  }

  /** Printable ASCII with a first character that is no space is plain. */
  lemma AsciiIsPlain(line: seq<byte>)
    requires line != [] && line[0] > 32 && forall i | 0 <= i < |line| :: 32 <= line[i] <= 0x7E
    ensures Plain(line)
  {
    AsciiIsUtf8(line);
    AsciiNoBreak(line);
  }

  lemma {:induction false} AsciiNoBreak(s: seq<byte>)
    requires forall i | 0 <= i < |s| :: 32 <= s[i] <= 0x7E
    ensures FirstBreak(s) == |s|
  {
    if s != [] {
      AsciiNoBreak(s[1..]);
    }
  }

  lemma {:induction false} Utf8Concat(a: seq<byte>, b: seq<byte>)
    requires Utf8(a) && Utf8(b)
    ensures Utf8(a + b)
    decreases |a|
  {
    if a == [] {
      assert a + b == b;
    } else {
      var n := CharLength(a);
      assert CharLength(a + b) == n;
      assert (a + b)[n..] == a[n..] + b;
      Utf8Concat(a[n..], b);
    }
  }

  /** A newline that follows does not complete a boundary begun before it. */
  lemma BreakStable(t: seq<byte>, rest: seq<byte>)
    requires t != [] && BreakLength(t) == 0
    ensures BreakLength(t + [NEWLINE] + rest) == 0
  {
    var s := t + [NEWLINE] + rest;
    assert forall i | 0 <= i < |t| :: s[i] == t[i];
    assert s[|t|] == NEWLINE;
  }

  lemma NewlineBreaks(rest: seq<byte>)
    ensures BreakLength([NEWLINE] + rest) == 1
  {
  }

  lemma SplitFirst(line: seq<byte>, rest: seq<byte>)
    requires FirstBreak(line) == |line|
    ensures SplitLines(line + [NEWLINE] + rest) == [line] + SplitLines(rest)
  {
    hide FirstBreak, BreakLength;
    var s := line + [NEWLINE] + rest;
    FirstBreakMeans(line);
    FirstBreakMeans(s);
    forall j: nat | j < |line|
      ensures BreakLength(s[j..]) == 0
    {
      assert s[j..] == line[j..] + [NEWLINE] + rest;
      BreakStable(line[j..], rest);
    }
    assert s[|line|..] == [NEWLINE] + rest;
    NewlineBreaks(rest);
    var i := FirstBreak(s);
    assert i == |line|;
    assert s[..i] == line && s[i + 1..] == rest;
  }

  /** A file of plain lines has exactly these text lines, none of them blank. */
  lemma {:induction false} PlainLines(lines: seq<seq<byte>>)
    requires forall i | 0 <= i < |lines| :: Plain(lines[i])
    ensures Utf8(Unlines(lines)) && NonBlank(SplitLines(Unlines(lines))) == lines
  {
    hide FirstBreak, SplitLines, Blank;
    if lines == [] {
      NoLines();
    } else {
      PlainLines(lines[1..]);
      var rest := Unlines(lines[1..]);
      SplitFirst(lines[0], rest);
      assert Utf8([NEWLINE]);
      Utf8Concat(lines[0], [NEWLINE]);
      Utf8Concat(lines[0] + [NEWLINE], rest);
      NonBlankCons(lines[0], SplitLines(rest));
      assert [lines[0]] + lines[1..] == lines;
    }
  }

  lemma NoLines()
    ensures SplitLines([]) == []
  {
  }

  lemma NonBlankCons(line: seq<byte>, lines: seq<seq<byte>>)
    requires !Blank(line)
    ensures NonBlank([line] + lines) == [line] + NonBlank(lines)
  {
    hide Blank;
    assert ([line] + lines)[1..] == lines;
  }
}

/** The same on Unicode scalar values: what the byte-wise splitting and stripping mean. */
module ScalarLines {
  import opened Bytes
  import opened Unicode
  import opened TextLines

  /** The characters that end a line. */
  const BREAKS: set<nat> := {0x0A, 0x0B, 0x0C, 0x0D, 0x1C, 0x1D, 0x1E, 0x85, 0x2028, 0x2029}

  /** The white space characters. */
  const WHITE: set<nat> := {
    0x09, 0x0A, 0x0B, 0x0C, 0x0D, 0x1C, 0x1D, 0x1E, 0x1F, 0x20, 0x85, 0xA0, 0x1680, 0x2000, 0x2001, 0x2002, 0x2003,
    0x2004, 0x2005, 0x2006, 0x2007, 0x2008, 0x2009, 0x200A, 0x2028, 0x2029, 0x202F, 0x205F, 0x3000}

  function Upto(cs: seq<nat>): (i: nat)
    ensures i <= |cs| && (i < |cs| ==> cs[i] in BREAKS) && forall j | 0 <= j < i :: cs[j] !in BREAKS
  {
    if cs == [] || cs[0] in BREAKS then 0 else 1 + Upto(cs[1..])
  }

  /** Lines end at each of the breaks, CR LF being one; nothing follows the last break. */
  function LinesOf(cs: seq<nat>): seq<seq<nat>>
    decreases |cs|
  {
    if cs == [] then []
    else
      var i := Upto(cs);
      if i == |cs| then [cs]
      else [cs[..i]] + LinesOf(AfterBreak(cs[i..]))
  }

  function AfterBreak(cs: seq<nat>): (rest: seq<nat>)
    requires cs != []
    ensures |rest| < |cs| && exists n: nat :: n <= |cs| && rest == cs[n..]
  {
    if |cs| > 1 && cs[0] == 0x0D && cs[1] == 0x0A then cs[2..] else cs[1..]
  }

  function EncodeLines(lines: seq<seq<nat>>): seq<seq<byte>>
    requires forall i | 0 <= i < |lines| :: AllScalars(lines[i])
  {
    seq(|lines|, i requires 0 <= i < |lines| => EncodeScalars(lines[i]))
  }

  lemma {:induction false} EncodeConcat(a: seq<nat>, b: seq<nat>)
    requires AllScalars(a) && AllScalars(b)
    ensures AllScalars(a + b) && EncodeScalars(a + b) == EncodeScalars(a) + EncodeScalars(b)
  {
    hide EncodeScalar, Scalar;
    if a == [] {
      assert a + b == b;
    } else {
      assert (a + b)[0] == a[0] && (a + b)[1..] == a[1..] + b;
      EncodeConcat(a[1..], b);
    }
  }

  /** A character is a boundary exactly when it is one of the breaks; CR takes a following LF along. */
  lemma BreakOf(c: nat, rest: seq<byte>)
    requires Scalar(c)
    ensures var e := EncodeScalar(c);
            BreakLength(e + rest) ==
            if c == 0x0D && rest != [] && rest[0] == 0x0A then 2 else if c in BREAKS then |e| else 0
  {
    var e := EncodeScalar(c);
    var s := e + rest;
    assert forall i | 0 <= i < |e| :: s[i] == e[i];
    if |e| == 1 && rest != [] {
      assert s[1] == rest[0];
    }
    if c >= 0x800 {
      Parts(c);
    }
  }

  lemma Parts(c: nat)
    requires Scalar(c) && c >= 0x800
    ensures c < 0x1_0000 ==>
              EncodeScalar(c) == [0xE0 + c / 0x1000, 0x80 + c / 0x40 % 0x40, 0x80 + c % 0x40]
              && c == c / 0x1000 * 0x1000 + c / 0x40 % 0x40 * 0x40 + c % 0x40
    ensures c >= 0x1_0000 ==> |EncodeScalar(c)| == 4 && EncodeScalar(c)[0] >= 0xF0
  {
    ThreeParts(c);
  }

  /** White space by bytes is white space by characters. */
  lemma WhiteOf(c: nat, rest: seq<byte>)
    requires Scalar(c)
    ensures WhiteLength(EncodeScalar(c) + rest) == if c in WHITE then |EncodeScalar(c)| else 0
  {
    var e := EncodeScalar(c);
    var s := e + rest;
    assert forall i | 0 <= i < |e| :: s[i] == e[i];
    if c >= 0x800 {
      Parts(c);
    }
  }

  /** No boundary begins inside a character. */
  lemma InsideChar(c: nat, rest: seq<byte>, j: nat)
    requires Scalar(c) && 0 < j < |EncodeScalar(c)|
    ensures BreakLength((EncodeScalar(c) + rest)[j..]) == 0
  {
    var e := EncodeScalar(c);
    assert (e + rest)[j..][0] == e[j] && 0x80 <= e[j] <= 0xBF;
  }

  lemma FirstBreakUnique(s: seq<byte>, i: nat)
    requires i <= |s| && (i < |s| ==> BreakLength(s[i..]) > 0) && forall j: nat | j < i :: BreakLength(s[j..]) == 0
    ensures FirstBreak(s) == i
  {
    hide FirstBreak, BreakLength;
    FirstBreakMeans(s);
  }

  lemma {:induction false} FirstBreakOf(cs: seq<nat>)
    requires AllScalars(cs)
    ensures FirstBreak(EncodeScalars(cs)) == |EncodeScalars(cs[..Upto(cs)])|
  {
    hide FirstBreak, BreakLength, EncodeScalar, Scalar;
    var s := EncodeScalars(cs);
    if cs == [] {
      FirstBreakUnique(s, 0);
    } else {
      var e, rest := EncodeScalar(cs[0]), EncodeScalars(cs[1..]);
      BreakOf(cs[0], rest);
      if cs[0] in BREAKS {
        assert s[0..] == s;
        FirstBreakUnique(s, 0);
        assert cs[..0] == [];
      } else {
        FirstBreakOf(cs[1..]);
        var i := |e| + FirstBreak(rest);
        forall j: nat | j < i
          ensures BreakLength(s[j..]) == 0
        {
          if j == 0 {
            assert s[0..] == s;
          } else if j < |e| {
            InsideChar(cs[0], rest, j);
          } else {
            FirstBreakMeans(rest);
            assert s[j..] == rest[j - |e|..];
          }
        }
        assert i < |s| ==> s[i..] == rest[FirstBreak(rest)..];
        FirstBreakUnique(s, i);
        assert cs[..Upto(cs)] == [cs[0]] + cs[1..][..Upto(cs[1..])];
        assert cs[..Upto(cs)][1..] == cs[1..][..Upto(cs[1..])];
      }
    }
  }

  /** A text starts with LF exactly when its first character is LF. */
  lemma StartsWithLf(cs: seq<nat>)
    requires AllScalars(cs)
    ensures EncodeScalars(cs) != [] && EncodeScalars(cs)[0] == 0x0A <==> cs != [] && cs[0] == 0x0A
  {
  }

  lemma {:induction false} LinesAreScalars(cs: seq<nat>)
    requires AllScalars(cs)
    ensures forall i | 0 <= i < |LinesOf(cs)| :: AllScalars(LinesOf(cs)[i])
    decreases |cs|
  {
    hide Scalar, Upto;
    if cs != [] && Upto(cs) < |cs| {
      LinesAreScalars(AfterBreak(cs[Upto(cs)..]));
    }
  }

  /** Splitting the encoded text at bytes is splitting the text at characters. */
  lemma {:induction false} SplitExact(cs: seq<nat>)
    requires AllScalars(cs)
    ensures forall i | 0 <= i < |LinesOf(cs)| :: AllScalars(LinesOf(cs)[i])
    ensures SplitLines(EncodeScalars(cs)) == EncodeLines(LinesOf(cs))
    decreases |cs|
  {
    hide FirstBreak, BreakLength, EncodeScalar, Scalar, Upto, EncodeScalars, AfterBreak;
    LinesAreScalars(cs);
    var s := EncodeScalars(cs);
    NothingEncoded(cs);
    if cs != [] {
      var i := Upto(cs);
      FirstBreakOf(cs);
      var first, later := cs[..i], cs[i..];
      assert cs == first + later;
      EncodeConcat(first, later);
      var f, t := EncodeScalars(first), EncodeScalars(later);
      NothingEncoded(later);
      if i < |cs| {
        BreakTaken(later);
        var next := AfterBreak(later);
        SplitCut(f, t);
        SplitExact(next);
        LinesAreScalars(next);
        EncodeLinesCons(first, LinesOf(next));
      } else {
        assert first == cs;
        EncodeLinesCons(cs, []);
        assert [cs] + [] == [cs] && EncodeLines([]) == [] && [s] + [] == [s];
      }
    }
  }

  /** Splitting where the first boundary is known. */
  lemma SplitCut(f: seq<byte>, t: seq<byte>)
    requires t != [] && FirstBreak(f + t) == |f|
    ensures SplitLines(f + t) == [f] + SplitLines(t[BreakLength(t)..])
  {
    hide FirstBreak, BreakLength, SplitLines;
    var s := f + t;
    assert s[|f|..] == t && s[..|f|] == f;
    SplitStep(s, |f|, |f| + BreakLength(t));
    assert s[|f| + BreakLength(t)..] == t[BreakLength(t)..];
  }

  lemma SplitStep(s: seq<byte>, i: nat, n: nat)
    requires i == FirstBreak(s) < |s| && n == i + BreakLength(s[i..])
    ensures SplitLines(s) == [s[..i]] + SplitLines(s[n..])
  {
    hide FirstBreak, BreakLength;
  }

  lemma EncodeLinesCons(line: seq<nat>, lines: seq<seq<nat>>)
    requires AllScalars(line) && forall i | 0 <= i < |lines| :: AllScalars(lines[i])
    ensures forall i | 0 <= i < |[line] + lines| :: AllScalars(([line] + lines)[i])
    ensures EncodeLines([line] + lines) == [EncodeScalars(line)] + EncodeLines(lines)
  {
    hide EncodeScalars, AllScalars;
  }

  lemma NothingEncoded(cs: seq<nat>)
    requires AllScalars(cs)
    ensures EncodeScalars(cs) == [] <==> cs == []
  {
    hide EncodeScalar, Scalar;
  }

  /** What a break takes away at the start of a text. */
  lemma BreakTaken(cs: seq<nat>)
    requires AllScalars(cs) && cs != [] && cs[0] in BREAKS
    ensures var s := EncodeScalars(cs); var n := BreakLength(s);
            n <= |s| && AllScalars(AfterBreak(cs)) && s[n..] == EncodeScalars(AfterBreak(cs))
  {
    hide BreakLength, EncodeScalar, EncodeScalars, Scalar, BREAKS;
    var rest := cs[1..];
    var e, t := EncodeScalar(cs[0]), EncodeScalars(rest);
    EncodeFirst(cs);
    BreakOf(cs[0], t);
    StartsWithLf(rest);
    if cs[0] == 0x0D && rest != [] && rest[0] == 0x0A {
      EncodeFirst(rest);
      CrLf();
      assert rest[1..] == cs[2..];
      assert (e + t)[2..] == t[1..] == EncodeScalars(cs[2..]);
    } else {
      assert (e + t)[|e|..] == t;
    }
  }

  lemma EncodeFirst(cs: seq<nat>)
    requires AllScalars(cs) && cs != []
    ensures AllScalars(cs[1..]) && EncodeScalars(cs) == EncodeScalar(cs[0]) + EncodeScalars(cs[1..])
  {
    hide EncodeScalar, Scalar;
  }

  lemma CrLf()
    ensures Scalar(0x0D) && Scalar(0x0A) && EncodeScalar(0x0D) == [0x0D] && EncodeScalar(0x0A) == [0x0A]
  {
  }

  /** A line is blank exactly when all its characters are white space. */
  lemma {:induction false} BlankExact(cs: seq<nat>)
    requires AllScalars(cs)
    ensures Blank(EncodeScalars(cs)) <==> forall i | 0 <= i < |cs| :: cs[i] in WHITE
  {
    hide WhiteLength, EncodeScalar, Scalar, WHITE;
    if cs != [] {
      var e, rest := EncodeScalar(cs[0]), EncodeScalars(cs[1..]);
      WhiteOf(cs[0], rest);
      BlankExact(cs[1..]);
      assert (e + rest)[|e|..] == rest;
      if forall i | 0 <= i < |cs[1..]| :: cs[1..][i] in WHITE {
        forall i | 0 < i < |cs|
          ensures cs[i] in WHITE
        {
          assert cs[1..][i - 1] in WHITE;
        }
      }
    }
  }
}
