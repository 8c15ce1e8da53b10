/**
 * How the hub materialises an inbound request body: it reads the body line by
 * line, as `BufferedReader.readLine` splits it, and appends each line to a
 * builder. A line ends at "\n", "\r" or "\r\n", and the terminator is not part
 * of the line, so the forwarded body is the inbound text with every line
 * break dropped.
 */
module BodyReader {
  import opened Wrappers

  predicate IsLineBreak(c: char)
  {
    c == '\r' || c == '\n'
  }

  predicate NoLineBreaks(s: string)
  {
    forall i :: 0 <= i < |s| ==> !IsLineBreak(s[i])
  }

  /** The reference meaning of flattening: `s` with every CR and LF removed, all else in order. */
  function StripLineBreaks(s: string): (r: string)
    ensures NoLineBreaks(r)
    ensures |r| <= |s|
  {
    if s == [] then [] else (if IsLineBreak(s[0]) then [] else [s[0]]) + StripLineBreaks(s[1..])
  }

  /** Flattening distributes over concatenation. */
  lemma {:induction false} StripAppend(a: string, b: string)
    ensures StripLineBreaks(a + b) == StripLineBreaks(a) + StripLineBreaks(b)
  {
    if a == [] {
      assert a + b == b;
    } else {
      var head := if IsLineBreak(a[0]) then [] else [a[0]];
      assert (a + b)[0] == a[0];
      assert (a + b)[1..] == a[1..] + b;
      calc {
        StripLineBreaks(a + b);
        head + StripLineBreaks(a[1..] + b);
        { StripAppend(a[1..], b); }
        head + (StripLineBreaks(a[1..]) + StripLineBreaks(b));
        (head + StripLineBreaks(a[1..])) + StripLineBreaks(b);
      }
    }
  }

  /** Text without line breaks is left as it is. */
  lemma {:induction false} StripNoBreaks(s: string)
    requires NoLineBreaks(s)
    ensures StripLineBreaks(s) == s
  {
    if s != [] {
      assert NoLineBreaks(s[1..]);
      StripNoBreaks(s[1..]);
    }
  }

  /** A run made only of line breaks flattens to nothing. */
  lemma {:induction false} StripOnlyBreaks(s: string)
    requires forall i :: 0 <= i < |s| ==> IsLineBreak(s[i])
    ensures StripLineBreaks(s) == []
  {
    if s != [] {
      StripOnlyBreaks(s[1..]);
    }
  }

  /** Index of the first line break at or after `pos`, or the end of the text. */
  function LineEnd(text: string, pos: nat): (e: nat)
    requires pos <= |text|
    ensures pos <= e <= |text|
    ensures NoLineBreaks(text[pos..e])
    ensures e < |text| ==> IsLineBreak(text[e])
    decreases |text| - pos
  {
    if pos == |text| || IsLineBreak(text[pos]) then pos else LineEnd(text, pos + 1)
  }

  /**
   * One call of `readLine` on the unread text `text[pos..]`: `None` (null) at
   * the end of the input, otherwise the line and the position after its
   * terminator. A line that reaches the end of the input needs no terminator.
   */
  function NextLine(text: string, pos: nat): (r: Option<(string, nat)>)
    requires pos <= |text|
    ensures r.None? <==> pos == |text|
    ensures r.Some? ==> pos < r.value.1 <= |text|
    ensures r.Some? ==> NoLineBreaks(r.value.0)
    ensures r.Some? ==>
      StripLineBreaks(text[pos..]) == r.value.0 + StripLineBreaks(text[r.value.1..])
    ensures r.Some? ==> ConsumesOneTerminator(text, pos, r.value.0, r.value.1)
  {
    if pos == |text| then
      None
    else
      var e := LineEnd(text, pos);
      var next :=
        if e == |text| then e
        else if text[e] == '\r' && e + 1 < |text| && text[e + 1] == '\n' then e + 2
        else e + 1;
      SplitAtTerminator(text, pos, e, next);
      TerminatorShape(text, pos, e, next);
      Some((text[pos..e], next))
  }

  /**
   * `text[pos..next]` is `line` followed by exactly one terminator ("\n",
   * "\r" or "\r\n"), or by none when the line runs to the end of the input;
   * a "\r\n" pair is never split between two lines.
   */
  ghost predicate ConsumesOneTerminator(text: string, pos: nat, line: string, next: nat)
    requires pos <= next <= |text|
  {
    && text[pos..next] in {line, line + "\n", line + "\r", line + "\r\n"}
    && (text[pos..next] == line ==> next == |text|)
    && (pos < next < |text| && text[next - 1] == '\r' ==> text[next] != '\n')
  }

  /** The position `NextLine` moves to consumes exactly one terminator. */
  lemma TerminatorShape(text: string, pos: nat, e: nat, next: nat)
    requires pos <= e <= |text|
    requires NoLineBreaks(text[pos..e])
    requires e < |text| ==> IsLineBreak(text[e])
    requires next ==
      if e == |text| then e
      else if text[e] == '\r' && e + 1 < |text| && text[e + 1] == '\n' then e + 2
      else e + 1
    ensures ConsumesOneTerminator(text, pos, text[pos..e], next)
  {
    var line := text[pos..e];
    if e == |text| {
      assert text[pos..next] == line;
    } else if next == e + 2 {
      assert text[pos..next] == line + [text[e], text[e + 1]];
      assert text[pos..next] == line + "\r\n";
    } else {
      assert text[pos..next] == line + [text[e]];
      assert text[pos..next] != line by { assert |text[pos..next]| == |line| + 1; }
      if text[e] == '\n' {
        assert text[pos..next] == line + "\n";
      } else {
        assert text[pos..next] == line + "\r";
      }
    }
  }

  /** Flattening the unread text is the line, then flattening what follows its terminator. */
  lemma SplitAtTerminator(text: string, pos: nat, e: nat, next: nat)
    requires pos <= e <= next <= |text|
    requires NoLineBreaks(text[pos..e])
    requires forall i :: e <= i < next ==> IsLineBreak(text[i])
    ensures StripLineBreaks(text[pos..]) == text[pos..e] + StripLineBreaks(text[next..])
  {
    assert text[pos..] == text[pos..e] + text[e..next] + text[next..];
    StripAppend(text[pos..e] + text[e..next], text[next..]);
    StripAppend(text[pos..e], text[e..next]);
    StripOnlyBreaks(text[e..next]);
    StripNoBreaks(text[pos..e]);
  }

  /** The lines `readLine` returns, in order, from `pos` until it returns null. */
  function Lines(text: string, pos: nat): (r: seq<string>)
    requires pos <= |text|
    ensures forall i :: 0 <= i < |r| ==> NoLineBreaks(r[i])
    ensures Concat(r) == StripLineBreaks(text[pos..])
    decreases |text| - pos
  {
    match NextLine(text, pos)
    case None => []
    case Some((line, next)) =>
      var rest := Lines(text, next);
      assert ([line] + rest)[1..] == rest;
      [line] + rest
  }

  /** One more `readLine` call contributes its line ahead of the rest. */
  lemma LinesStep(text: string, pos: nat)
    requires pos <= |text| && NextLine(text, pos).Some?
    ensures Concat(Lines(text, pos)) ==
      NextLine(text, pos).value.0 + Concat(Lines(text, NextLine(text, pos).value.1))
  {
    var rest := Lines(text, NextLine(text, pos).value.1);
    assert Lines(text, pos) == [NextLine(text, pos).value.0] + rest;
    assert ([NextLine(text, pos).value.0] + rest)[1..] == rest;
  }

  /** The lines joined with nothing between them, as repeated `StringBuilder.append` does. */
  function Concat(lines: seq<string>): string
  {
    if lines == [] then "" else lines[0] + Concat(lines[1..])
  }

  /**
   * The body-reading loop: read lines until `readLine` returns null, appending
   * each one. The result is the inbound text with its line breaks dropped.
   */
  method ReadBody(text: string) returns (body: string)
    ensures body == StripLineBreaks(text)
    ensures NoLineBreaks(body)
  {
    body := "";
    var pos: nat := 0;
    var line := NextLine(text, pos);
    while line.Some?
      invariant pos <= |text|
      invariant line == NextLine(text, pos)
      invariant body + Concat(Lines(text, pos)) == Concat(Lines(text, 0))
      decreases |text| - pos
    {
      LinesStep(text, pos);
      ghost var rest := Concat(Lines(text, line.value.1));
      assert body + (line.value.0 + rest) == (body + line.value.0) + rest;
      body := body + line.value.0;
      pos := line.value.1;
      line := NextLine(text, pos);
    }
    assert text[0..] == text;
    assert body == Concat(Lines(text, 0));
  }
}
