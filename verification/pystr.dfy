/**
 Models of the Python `str` methods the purchase-order application relies on:
 `lower`, `startswith`, `strip`, `split`, `rsplit(sep, 1)` and `splitlines`.

 - `lower` is restricted to ASCII letters (every other character is kept).
 - `strip` removes exactly the characters for which Python's `str.isspace` holds.
 - `splitlines` breaks at exactly the characters Python's `str.splitlines`
   treats as line boundaries, with "\r\n" taken as one boundary.
 */
module PyStr {

  // ---------------------------------------------------------------------------
  // lower / startswith
  // ---------------------------------------------------------------------------

  /** One character of `str.lower`, restricted to ASCII. */
  function LowerChar(c: char): char {
    if IsUpper(c) then (c as int + 32) as char else c
  }

  predicate IsUpper(c: char) {
    'A' <= c <= 'Z'
  }

  /** `s.lower()` restricted to ASCII: a character-wise map. */
  function Lower(s: string): (r: string)
    ensures |r| == |s|
  {
    seq(|s|, i requires 0 <= i < |s| => LowerChar(s[i]))
  }

  /** Lowering leaves no upper-case letter behind. */
  lemma LowerHasNoUpper(s: string)
    ensures forall i :: 0 <= i < |s| ==> !IsUpper(Lower(s)[i])
  {
  }

  /** Lowering twice is lowering once. */
  lemma LowerIdempotent(s: string)
    ensures Lower(Lower(s)) == Lower(s)
  {
  }

  /** Lowering distributes over concatenation. */
  lemma LowerAppend(a: string, b: string)
    ensures Lower(a + b) == Lower(a) + Lower(b)
  {
  }

  /** Text without upper-case letters is left as it is. */
  lemma LowerFixed(s: string)
    ensures (forall i :: 0 <= i < |s| ==> !IsUpper(s[i])) ==> Lower(s) == s
  {
  }

  /** Each upper-case letter becomes its lower-case partner. */
  lemma LowerAlphabet()
    ensures Lower("ABCDEFGHIJKLMNOPQRSTUVWXYZ") == "abcdefghijklmnopqrstuvwxyz"
  {
  }

  /** `s.startswith(p)`. */
  predicate StartsWith(s: string, p: string) {
    |p| <= |s| && s[..|p|] == p
  }

  // ---------------------------------------------------------------------------
  // strip
  // ---------------------------------------------------------------------------

  /** Python's `str.isspace` for one character: the characters whose Unicode
      bidirectional class is WS, B or S, or whose category is Zs. */
  predicate IsSpace(c: char) {
    || c == ' '
    || '\t' <= c <= '\r'
    || '\U{1C}' <= c <= '\U{1F}'
    || c == '\U{85}' || c == '\U{A0}' || c == '\U{1680}'
    || '\U{2000}' <= c <= '\U{200A}'
    || c == '\U{2028}' || c == '\U{2029}' || c == '\U{202F}'
    || c == '\U{205F}' || c == '\U{3000}'
  }

  predicate AllSpace(s: string) {
    forall i :: 0 <= i < |s| ==> IsSpace(s[i])
  }

  /** `s.lstrip()`: the longest suffix of `s` that does not start with whitespace. */
  function StripLeft(s: string): (r: string)
    ensures |r| <= |s| && r == s[|s| - |r|..]
    ensures forall i :: 0 <= i < |s| - |r| ==> IsSpace(s[i])
    ensures r == [] || !IsSpace(r[0])
    decreases |s|
  {
    if |s| > 0 && IsSpace(s[0]) then
      var r := StripLeft(s[1..]);
      assert s[1..][|s| - 1 - |r|..] == s[|s| - |r|..];
      r
    else s
  }

  /** `s.rstrip()`: the longest prefix of `s` that does not end with whitespace. */
  function StripRight(s: string): (r: string)
    ensures |r| <= |s| && r == s[..|r|]
    ensures forall i :: |r| <= i < |s| ==> IsSpace(s[i])
    ensures r == [] || !IsSpace(r[|r| - 1])
    decreases |s|
  {
    if |s| > 0 && IsSpace(s[|s| - 1]) then StripRight(s[..|s| - 1]) else s
  }

  /** `s.strip()`: `s` with whitespace removed from both ends. */
  function Strip(s: string): (r: string)
    ensures |r| <= |s|
    ensures r == [] || (!IsSpace(r[0]) && !IsSpace(r[|r| - 1]))
  {
    StripRight(StripLeft(s))
  }

  /** What `strip` removes is whitespace, from the two ends only. */
  lemma StripDecompose(s: string)
    ensures exists i, j {:trigger s[i..j]} :: 0 <= i <= j <= |s| && Strip(s) == s[i..j]
                                && AllSpace(s[..i]) && AllSpace(s[j..])
  {
    var l := StripLeft(s);
    var r := StripRight(l);
    var i := |s| - |l|;
    var j := i + |r|;
    assert s[i..] == l;
    assert s[i..j] == r;
    assert AllSpace(s[..i]);
    forall k | 0 <= k < |s[j..]|
      ensures IsSpace(s[j..][k])
    {
      assert s[j..][k] == l[|r| + k];
    }
    assert Strip(s) == s[i..j] && AllSpace(s[..i]) && AllSpace(s[j..]);
  }

  lemma {:induction false} StripLeftOfSpaces(a: string, m: string)
    requires AllSpace(a)
    requires m == [] || !IsSpace(m[0])
    ensures StripLeft(a + m) == m
    decreases |a|
  {
    if |a| > 0 {
      assert (a + m)[1..] == a[1..] + m;
      StripLeftOfSpaces(a[1..], m);
    } else {
      assert a + m == m;
    }
  }

  lemma {:induction false} StripRightOfSpaces(m: string, b: string)
    requires AllSpace(b)
    requires m == [] || !IsSpace(m[|m| - 1])
    ensures StripRight(m + b) == m
    decreases |b|
  {
    if |b| > 0 {
      var mb := m + b;
      assert mb[|mb| - 1] == b[|b| - 1];
      assert mb[..|mb| - 1] == m + b[..|b| - 1];
      assert AllSpace(b[..|b| - 1]);
      StripRightOfSpaces(m, b[..|b| - 1]);
    } else {
      assert m + b == m;
    }
  }

  /** The characterisation of `strip`: whitespace around a core that neither
      starts nor ends with whitespace strips to exactly that core. */
  lemma {:induction false} StripOf(a: string, m: string, b: string)
    requires AllSpace(a) && AllSpace(b)
    requires m == [] || (!IsSpace(m[0]) && !IsSpace(m[|m| - 1]))
    ensures Strip(a + m + b) == m
  {
    if m == [] {
      assert a + m + b == (a + b) + [];
      StripLeftOfSpaces(a + b, []);
      assert StripLeft(a + m + b) == [];
    } else {
      assert a + m + b == a + (m + b);
      StripLeftOfSpaces(a, m + b);
      StripRightOfSpaces(m, b);
    }
  }

  // ---------------------------------------------------------------------------
  // split(sep) and its inverse join
  // ---------------------------------------------------------------------------

  /** `s.split(sep)` for a one-character separator: the pieces between
      separators, always at least one (an empty `s` gives [""]). */
  function Split(s: string, sep: char): (parts: seq<string>)
    ensures |parts| >= 1
    decreases |s|
  {
    if |s| == 0 then [""]
    else
      var rest := Split(s[1..], sep);
      if s[0] == sep then [""] + rest
      else [[s[0]] + rest[0]] + rest[1..]
  }

  /** `sep.join(parts)`. */
  function Join(parts: seq<string>, sep: char): string {
    if |parts| == 0 then ""
    else if |parts| == 1 then parts[0]
    else parts[0] + [sep] + Join(parts[1..], sep)
  }

  /** No piece of a split contains the separator. */
  lemma {:induction false} SplitNoSep(s: string, sep: char)
    ensures forall k :: 0 <= k < |Split(s, sep)| ==> sep !in Split(s, sep)[k]
    decreases |s|
  {
    if |s| > 0 {
      SplitNoSep(s[1..], sep);
    }
  }

  /** Joining the pieces of a split with the same separator gives back the string. */
  lemma {:induction false} SplitJoin(s: string, sep: char)
    ensures Join(Split(s, sep), sep) == s
    decreases |s|
  {
    if |s| > 0 {
      var rest := Split(s[1..], sep);
      SplitJoin(s[1..], sep);
      if s[0] == sep {
        assert s == [sep] + s[1..];
      } else if |rest| == 1 {
        assert s == [s[0]] + s[1..];
      } else {
        assert rest == [rest[0]] + rest[1..];
        assert Join(rest, sep) == rest[0] + [sep] + Join(rest[1..], sep);
        assert s == [s[0]] + s[1..];
      }
    }
  }

  /** A string splits into more than one piece exactly when it contains the separator. */
  lemma {:induction false} SplitSeveralIff(s: string, sep: char)
    ensures |Split(s, sep)| > 1 <==> sep in s
    decreases |s|
  {
    if |s| > 0 {
      SplitSeveralIff(s[1..], sep);
      assert s == [s[0]] + s[1..];
    }
  }

  /** A separator-free piece followed by anything is the head of the first piece. */
  lemma {:induction false} SplitOfPrefix(f: string, t: string, sep: char)
    requires sep !in f
    ensures Split(f + t, sep) == [f + Split(t, sep)[0]] + Split(t, sep)[1..]
    decreases |f|
  {
    if |f| > 0 {
      var q := Split(t, sep);
      assert (f + t)[1..] == f[1..] + t;
      assert (f + t)[0] == f[0] != sep;
      var rest := Split(f[1..] + t, sep);
      SplitOfPrefix(f[1..], t, sep);
      assert rest[0] == f[1..] + q[0];
      assert rest[1..] == q[1..];
      assert Split(f + t, sep) == [[f[0]] + rest[0]] + rest[1..];
      assert [f[0]] + (f[1..] + q[0]) == f + q[0];
    } else {
      var q := Split(t, sep);
      assert f + t == t;
      assert f + q[0] == q[0];
      assert [q[0]] + q[1..] == q;
    }
  }

  /** A separator-free piece, the separator, then anything: the piece comes off first. */
  lemma SplitOfField(a: string, t: string, sep: char)
    requires sep !in a
    ensures Split(a + [sep] + t, sep) == [a] + Split(t, sep)
  {
    var u := [sep] + t;
    SplitOfPrefix(a, u, sep);
    assert a + [sep] + t == a + u;
    assert u[0] == sep && u[1..] == t;
    assert Split(u, sep) == [""] + Split(t, sep);
    assert a + "" == a;
  }

  /** Splitting a join of separator-free pieces recovers the pieces. */
  lemma {:induction false} JoinSplit(parts: seq<string>, sep: char)
    requires |parts| >= 1
    requires forall k :: 0 <= k < |parts| ==> sep !in parts[k]
    ensures Split(Join(parts, sep), sep) == parts
    decreases |parts|
  {
    if |parts| == 1 {
      SplitOfPrefix(parts[0], [], sep);
      assert Split([], sep) == [""];
      assert parts[0] + [] == parts[0];
    } else {
      JoinSplit(parts[1..], sep);
      SplitOfField(parts[0], Join(parts[1..], sep), sep);
      assert [parts[0]] + parts[1..] == parts;
    }
  }

  // ---------------------------------------------------------------------------
  // rsplit(sep, 1)
  // ---------------------------------------------------------------------------

  /** `s.rsplit(sep, 1)`: [s] when `sep` does not occur, otherwise the text
      before and the text after the LAST occurrence of `sep`. */
  function RSplitOnce(s: string, sep: char): (parts: seq<string>)
    ensures |parts| == 1 || |parts| == 2
    ensures |parts| == 1 <==> sep !in s
    ensures |parts| == 1 ==> parts[0] == s
    ensures |parts| == 2 ==> s == parts[0] + [sep] + parts[1] && sep !in parts[1]
    decreases |s|
  {
    if |s| == 0 then [s]
    else if s[|s| - 1] == sep then [s[..|s| - 1], ""]
    else
      var p := RSplitOnce(s[..|s| - 1], sep);
      assert s == s[..|s| - 1] + [s[|s| - 1]];
      if |p| == 1 then [s] else [p[0], p[1] + [s[|s| - 1]]]
  }

  /** Whatever precedes the last separator, `rsplit(sep, 1)` cuts exactly there. */
  lemma {:induction false} RSplitOnceOf(head: string, tail: string, sep: char)
    requires sep !in tail
    ensures RSplitOnce(head + [sep] + tail, sep) == [head, tail]
    decreases |tail|
  {
    var s := head + [sep] + tail;
    if |tail| == 0 {
      assert s[..|s| - 1] == head;
    } else {
      var t' := tail[..|tail| - 1];
      RSplitOnceOf(head, t', sep);
      assert s[..|s| - 1] == head + [sep] + t';
      assert s[|s| - 1] == tail[|tail| - 1];
      assert t' + [tail[|tail| - 1]] == tail;
    }
  }

  // ---------------------------------------------------------------------------
  // splitlines
  // ---------------------------------------------------------------------------

  /** The characters Python's `str.splitlines` breaks lines at. */
  predicate IsLineBreak(c: char) {
    || '\n' <= c <= '\r'            // \n, \v, \f, \r
    || '\U{1C}' <= c <= '\U{1E}'    // file, group and record separators
    || c == '\U{85}'                // next line
    || '\U{2028}' <= c <= '\U{2029}' // line and paragraph separators
  }

  predicate HasNoBreak(s: string) {
    forall i :: 0 <= i < |s| ==> !IsLineBreak(s[i])
  }

  /** The index of the first line break in `s`, or |s| when there is none. */
  function LineEnd(s: string): (i: nat)
    ensures i <= |s|
    ensures i < |s| ==> IsLineBreak(s[i])
    ensures HasNoBreak(s[..i])
    decreases |s|
  {
    if |s| == 0 || IsLineBreak(s[0]) then 0 else 1 + LineEnd(s[1..])
  }

  /** The length of the line boundary starting at `i`: "\r\n" is one boundary. */
  function BreakWidth(s: string, i: nat): nat
    requires i < |s|
  {
    if s[i] == '\r' && i + 1 < |s| && s[i + 1] == '\n' then 2 else 1
  }

  /** `s.splitlines()`: the lines of `s` without their terminators; a final
      terminator does not open an empty last line, and "" has no lines. */
  function SplitLines(s: string): (lines: seq<string>)
    ensures forall k :: 0 <= k < |lines| ==> HasNoBreak(lines[k])
    decreases |s|
  {
    if |s| == 0 then []
    else
      var i := LineEnd(s);
      if i == |s| then [s]
      else [s[..i]] + SplitLines(s[i + BreakWidth(s, i)..])
  }

  /** A line terminator `splitlines` recognises: one break character, or "\r\n". */
  predicate IsTerminator(eol: string) {
    (|eol| == 1 && IsLineBreak(eol[0])) || eol == "\r\n"
  }

  /** Every line followed by `eol`. */
  function Terminated(lines: seq<string>, eol: string): string {
    if |lines| == 0 then "" else lines[0] + eol + Terminated(lines[1..], eol)
  }

  /** One terminated line comes off the front of the text as the first line. */
  lemma SplitLinesStep(l: string, eol: string, rest: string)
    requires IsTerminator(eol) && HasNoBreak(l)
    requires eol == "\r" ==> rest == [] || rest[0] != '\n'
    ensures SplitLines(l + eol + rest) == [l] + SplitLines(rest)
  {
    var s := l + eol + rest;
    assert s == l + (eol + rest);
    assert (eol + rest)[0] == eol[0];
    LineEndOf(l, eol + rest);
    if |eol| == 1 {
      assert s[|l|] == eol[0];
      assert eol[0] == '\r' ==> eol == "\r";
      assert eol[0] == '\r' && |l| + 1 < |s| ==> s[|l| + 1] == rest[0];
    } else {
      assert s[|l|] == '\r' && s[|l| + 1] == '\n';
    }
    assert BreakWidth(s, |l|) == |eol|;
    assert s[|l| + |eol|..] == rest;
    assert s[..|l|] == l;
  }

  /** With "\r" as terminator, terminated break-free lines never start with "\n". */
  lemma TerminatedHead(lines: seq<string>, eol: string)
    requires eol == "\r" && |lines| > 0 && HasNoBreak(lines[0])
    ensures |Terminated(lines, eol)| > 0 && Terminated(lines, eol)[0] != '\n'
  {
    var t := Terminated(lines, eol);
    assert t == lines[0] + eol + Terminated(lines[1..], eol);
    if lines[0] == [] {
      assert t[0] == '\r';
    } else {
      assert t[0] == lines[0][0];
    }
  }

  /** Text after a run of terminated lines splits into those lines and the lines
      of the rest — unless the rest begins with the "\n" of a "\r" + "\n" pair. */
  lemma {:induction false} SplitLinesAppend(lines: seq<string>, eol: string, tail: string)
    requires IsTerminator(eol)
    requires forall k :: 0 <= k < |lines| ==> HasNoBreak(lines[k])
    requires |lines| > 0 && eol == "\r" ==> tail == [] || tail[0] != '\n'
    ensures SplitLines(Terminated(lines, eol) + tail) == lines + SplitLines(tail)
    decreases |lines|
  {
    if |lines| == 0 {
      assert Terminated(lines, eol) == [];
      EmptyAppend(tail);
      EmptyAppend(SplitLines(tail));
    } else {
      var rest := Terminated(lines[1..], eol) + tail;
      var tailLines := SplitLines(tail);
      calc {
        SplitLines(Terminated(lines, eol) + tail);
        { TerminatedCons(lines, eol, tail); }
        SplitLines(lines[0] + eol + rest);
        { RestHead(lines, eol, tail); SplitLinesStep(lines[0], eol, rest); }
        [lines[0]] + SplitLines(rest);
        { SplitLinesAppend(lines[1..], eol, tail); }
        [lines[0]] + (lines[1..] + tailLines);
        { ConsAppend(lines[0], lines[1..], tailLines); }
        ([lines[0]] + lines[1..]) + tailLines;
        { assert [lines[0]] + lines[1..] == lines; }
        lines + tailLines;
      }
    }
  }

  /** What follows the first terminated line still cannot start a "\r" + "\n" pair. */
  lemma RestHead(lines: seq<string>, eol: string, tail: string)
    requires |lines| > 0 && forall k :: 0 <= k < |lines| ==> HasNoBreak(lines[k])
    requires eol == "\r" ==> tail == [] || tail[0] != '\n'
    ensures var rest := Terminated(lines[1..], eol) + tail;
      eol == "\r" ==> rest == [] || rest[0] != '\n'
  {
    var more := Terminated(lines[1..], eol);
    if |lines| == 1 {
      assert more + tail == tail;
    } else if eol == "\r" {
      assert HasNoBreak(lines[1..][0]);
      TerminatedHead(lines[1..], eol);
      assert (more + tail)[0] == more[0];
    }
  }

  lemma TerminatedCons(lines: seq<string>, eol: string, tail: string)
    requires |lines| > 0
    ensures Terminated(lines, eol) + tail == lines[0] + eol + (Terminated(lines[1..], eol) + tail)
  {
  }

  lemma EmptyAppend<T>(a: seq<T>)
    ensures [] + a == a
  {
  }

  lemma ConsAppend<T>(x: T, a: seq<T>, b: seq<T>)
    ensures [x] + (a + b) == ([x] + a) + b
  {
  }

  lemma {:induction false} LineEndOf(l: string, t: string)
    requires HasNoBreak(l)
    requires |t| > 0 && IsLineBreak(t[0])
    ensures LineEnd(l + t) == |l|
    decreases |l|
  {
    if |l| > 0 {
      assert (l + t)[1..] == l[1..] + t;
      LineEndOf(l[1..], t);
    } else {
      assert l + t == t;
    }
  }

  /** The round trip: lines without breaks, each terminated, split back into themselves. */
  lemma SplitLinesOfTerminated(lines: seq<string>, eol: string)
    requires IsTerminator(eol)
    requires forall k :: 0 <= k < |lines| ==> HasNoBreak(lines[k])
    ensures SplitLines(Terminated(lines, eol)) == lines
  {
    SplitLinesAppend(lines, eol, "");
    assert Terminated(lines, eol) + "" == Terminated(lines, eol);
    assert lines + [] == lines;
  }

  /** A non-empty line without breaks is one line. */
  lemma SplitLinesOfLine(l: string)
    requires |l| > 0 && HasNoBreak(l)
    ensures SplitLines(l) == [l]
  {
    LineEndNone(l);
  }

  lemma {:induction false} LineEndNone(l: string)
    requires HasNoBreak(l)
    ensures LineEnd(l) == |l|
    decreases |l|
  {
    if |l| > 0 {
      LineEndNone(l[1..]);
    }
  }
}
