/**
 * CRLF-terminated text lines, as an HTTP response head is written: each
 * line gets "\r\n" appended and the results are concatenated.  SplitLines,
 * which reads such text back into its lines, is the inverse against which
 * the writer is proved.
 *
 * Lemmas here carry `{:induction false}`: the recursive ones spell out their
 * induction, and on the others it stops Dafny from adding induction
 * hypotheses the proofs do not use, which only slow the solver down.
 */
module Lines {
  import opened Wrappers

  const Crlf: string := "\r\n"

  /** A line with no carriage return in it, so no CRLF can start inside it. */
  predicate NoCr(line: string) {
    forall j :: 0 <= j < |line| ==> line[j] != '\r'
  }

  /** Two texts joined contain no CR exactly when neither does. */
  lemma {:induction false} NoCrAppend(x: string, y: string)
    ensures NoCr(x + y) <==> NoCr(x) && NoCr(y)
  {
    assert forall j :: 0 <= j < |x| ==> (x + y)[j] == x[j];
    assert forall j :: 0 <= j < |y| ==> (x + y)[|x| + j] == y[j];
  }

  /** Every line gets a CRLF appended. */
  function AppendCrlfToEach(lines: seq<string>): (r: seq<string>)
    ensures |r| == |lines|
    ensures forall i :: 0 <= i < |lines| ==> r[i] == lines[i] + Crlf
  {
    if lines == [] then [] else [lines[0] + Crlf] + AppendCrlfToEach(lines[1..])
  }

  /** The lines concatenated with nothing in between. */
  function Concat(lines: seq<string>): string
  {
    if lines == [] then [] else lines[0] + Concat(lines[1..])
  }

  /** Joining two lists of lines one after the other is joining each and concatenating. */
  lemma {:induction false} ConcatAppend(a: seq<string>, b: seq<string>)
    ensures Concat(a + b) == Concat(a) + Concat(b)
  {
    if a == [] {
      assert a + b == b;
    } else {
      assert (a + b)[0] == a[0];
      assert (a + b)[1..] == a[1..] + b;
      ConcatAppend(a[1..], b);
    }
  }

  /** A CR LF pair starts at position i of s. */
  predicate CrlfAt(s: string, i: int) {
    0 <= i && i + 1 < |s| && s[i] == '\r' && s[i + 1] == '\n'
  }

  /** The position of the first CR LF pair in s, if there is one. */
  function FindCrlf(s: string): (r: Option<nat>)
    ensures r.Some? ==> CrlfAt(s, r.value)
    ensures r.Some? ==> forall i :: 0 <= i < r.value ==> !CrlfAt(s, i)
    ensures r.None? ==> forall i :: !CrlfAt(s, i)
    decreases |s|
  {
    if |s| < 2 then None
    else if s[0] == '\r' && s[1] == '\n' then Some(0)
    else
      CrlfAtAfterFirst(s);
      match FindCrlf(s[1..])
      case None => None
      case Some(k) => Some(k + 1)
  }

  /** Dropping the first character moves every CR LF pair one position down. */
  lemma {:induction false} CrlfAtAfterFirst(s: string)
    requires s != []
    ensures forall i :: 1 <= i ==> (CrlfAt(s, i) <==> CrlfAt(s[1..], i - 1))
  {
  }

  /**
   * The CRLF-terminated lines s consists of, or None when s does not end
   * in a CRLF.
   */
  function SplitLines(s: string): (r: Option<seq<string>>)
    decreases |s|
  {
    if s == [] then Some([])
    else
      match FindCrlf(s)
      case None => None
      case Some(k) =>
        match SplitLines(s[k + 2..])
        case None => None
        case Some(rest) => Some([s[..k]] + rest)
  }

  /** Writing a nonempty list of lines: the first line, its CRLF, then the rest written. */
  lemma {:induction false} WriteFirstLine(lines: seq<string>)
    requires lines != []
    ensures Concat(AppendCrlfToEach(lines)) == lines[0] + Crlf + Concat(AppendCrlfToEach(lines[1..]))
  {
    assert AppendCrlfToEach(lines)[1..] == AppendCrlfToEach(lines[1..]);
  }

  /** Four lines and the empty line that ends an HTTP head, written out. */
  lemma {:induction false} WriteHead(a: string, b: string, c: string, d: string)
    ensures Concat(AppendCrlfToEach([a, b, c, d, ""])) == a + Crlf + b + Crlf + c + Crlf + d + Crlf + Crlf
  {
    var w4 := Concat(AppendCrlfToEach([""]));
    assert w4 == Crlf by {
      WriteFirstLine([""]);
      assert [""][1..] == [];
    }
    var w3 := Concat(AppendCrlfToEach([d, ""]));
    assert w3 == d + Crlf + Crlf by {
      WriteFirstLine([d, ""]);
      assert [d, ""][1..] == [""];
    }
    var w2 := Concat(AppendCrlfToEach([c, d, ""]));
    assert w2 == c + Crlf + w3 by {
      WriteFirstLine([c, d, ""]);
      assert [c, d, ""][1..] == [d, ""];
    }
    var w1 := Concat(AppendCrlfToEach([b, c, d, ""]));
    assert w1 == b + Crlf + w2 by {
      WriteFirstLine([b, c, d, ""]);
      assert [b, c, d, ""][1..] == [c, d, ""];
    }
    assert Concat(AppendCrlfToEach([a, b, c, d, ""])) == a + Crlf + w1 by {
      WriteFirstLine([a, b, c, d, ""]);
      assert [a, b, c, d, ""][1..] == [b, c, d, ""];
    }
    var p1 := a + Crlf;
    var p2 := p1 + b + Crlf;
    var p3 := p2 + c + Crlf;
    assert p1 + w1 == p2 + w2;
    assert p2 + w2 == p3 + w3;
    assert p3 + w3 == p3 + d + Crlf + Crlf;
  }

  /** In a line without CR followed by CRLF, the first CRLF is the terminator. */
  lemma {:induction false} FindCrlfAfterLine(line: string, tail: string)
    requires NoCr(line)
    ensures FindCrlf(line + Crlf + tail) == Some(|line|)
    decreases |line|
  {
    if line != [] {
      assert (line + Crlf + tail)[1..] == line[1..] + Crlf + tail;
      FindCrlfAfterLine(line[1..], tail);
    }
  }

  /** Writing lines and splitting the text again gives the same lines. */
  lemma {:induction false} SplitConcat(lines: seq<string>)
    requires forall i :: 0 <= i < |lines| ==> NoCr(lines[i])
    ensures SplitLines(Concat(AppendCrlfToEach(lines))) == Some(lines)
  {
    if lines != [] {
      var line, text := lines[0], Concat(AppendCrlfToEach(lines[1..]));
      assert AppendCrlfToEach(lines)[1..] == AppendCrlfToEach(lines[1..]);
      assert Concat(AppendCrlfToEach(lines)) == line + Crlf + text;
      FindCrlfAfterLine(line, text);
      assert (line + Crlf + text)[..|line|] == line;
      assert (line + Crlf + text)[|line| + 2..] == text;
      SplitConcat(lines[1..]);
      assert [line] + lines[1..] == lines;
    }
  }

  /** A nonempty text SplitLines accepts: its first line, that line's CRLF, then text SplitLines accepts. */
  lemma {:induction false} SplitFirstLine(s: string)
    requires s != [] && SplitLines(s).Some?
    ensures FindCrlf(s).Some? && SplitLines(s[FindCrlf(s).value + 2..]).Some?
    ensures var k := FindCrlf(s).value;
      SplitLines(s).value == [s[..k]] + SplitLines(s[k + 2..]).value && s == s[..k] + Crlf + s[k + 2..]
  {
    var k := FindCrlf(s).value;
    assert s[k..k + 2] == Crlf;
    assert s == s[..k] + s[k..k + 2] + s[k + 2..];
  }

  /** Every text SplitLines accepts is the written form of the lines it returns. */
  lemma {:induction false} ConcatSplit(s: string, lines: seq<string>)
    requires SplitLines(s) == Some(lines)
    ensures Concat(AppendCrlfToEach(lines)) == s
    decreases |s|
  {
    if s != [] {
      SplitFirstLine(s);
      var k := FindCrlf(s).value;
      var rest := SplitLines(s[k + 2..]).value;
      ConcatSplit(s[k + 2..], rest);
      assert lines[0] == s[..k] && lines[1..] == rest;
      WriteFirstLine(lines);
    }
  }
}
