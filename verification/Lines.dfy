/** Newline-terminated lines of a growing text, over characters or bytes alike. */
module Lines {
  import opened Collections

  newtype byte = x: int | 0 <= x < 256

  /** The complete lines, without their terminators. */
  function LinesOf<T(==)>(s: seq<T>, nl: T): (lines: seq<seq<T>>) {
    if s == [] then []
    else
      var init := s[..|s| - 1];
      if s[|s| - 1] == nl then LinesOf(init, nl) + [Rest(init, nl)] else LinesOf(init, nl)
  }

  /** What follows the last terminator. */
  function Rest<T(==)>(s: seq<T>, nl: T): (rest: seq<T>)
    ensures nl !in rest
  {
    if s == [] || s[|s| - 1] == nl then [] else Rest(s[..|s| - 1], nl) + [s[|s| - 1]]
  }

  /** Lines written out, each with its terminator. */
  function Terminated<T>(lines: seq<seq<T>>, nl: T): (s: seq<T>) {
    if lines == [] then [] else Terminated(lines[..|lines| - 1], nl) + (lines[|lines| - 1] + [nl])
  }

  predicate Unbroken<T(==)>(lines: seq<seq<T>>, nl: T) {
    forall i :: 0 <= i < |lines| ==> nl !in lines[i]
  }

  lemma {:induction false} NoTerminatorNoLine<T>(s: seq<T>, nl: T)
    requires nl !in s
    ensures LinesOf(s, nl) == [] && Rest(s, nl) == s
  {
    if s != [] {
      assert s == s[..|s| - 1] + [s[|s| - 1]];
      NoTerminatorNoLine(s[..|s| - 1], nl);
    }
  }

  /** Text may be cut wherever chunks end: what was left over is simply put in front of the next chunk. */
  lemma {:induction false} LinesConcat<T>(a: seq<T>, b: seq<T>, nl: T)
    ensures LinesOf(a + b, nl) == LinesOf(a, nl) + LinesOf(Rest(a, nl) + b, nl)
    ensures Rest(a + b, nl) == Rest(Rest(a, nl) + b, nl)
    decreases |b|
  {
    var rest := Rest(a, nl);
    if b == [] {
      assert a + b == a && rest + b == rest;
      NoTerminatorNoLine(rest, nl);
    } else {
      var c, last := b[..|b| - 1], b[|b| - 1];
      assert (a + b)[..|a + b| - 1] == a + c && (rest + b)[..|rest + b| - 1] == rest + c;
      LinesConcat(a, c, nl);
      if last == nl {
        AppendIsAssociative(LinesOf(a, nl), LinesOf(rest + c, nl), [Rest(rest + c, nl)]);
      }
    }
  }

  /** Taking the first line off, as the reading loops do. */
  lemma TakeLine<T>(line: seq<T>, tail: seq<T>, nl: T)
    requires nl !in line
    ensures LinesOf(line + [nl] + tail, nl) == [line] + LinesOf(tail, nl)
    ensures Rest(line + [nl] + tail, nl) == Rest(tail, nl)
  {
    var head := line + [nl];
    assert head[..|head| - 1] == line;
    NoTerminatorNoLine(line, nl);
    LinesConcat(head, tail, nl);
    assert [] + tail == tail;
  }

  lemma {:induction false} LinesReassemble<T>(s: seq<T>, nl: T)
    ensures Unbroken(LinesOf(s, nl), nl)
    ensures Terminated(LinesOf(s, nl), nl) + Rest(s, nl) == s
  {
    if s != [] {
      var init, last := s[..|s| - 1], s[|s| - 1];
      LinesReassemble(init, nl);
      assert s == init + [last];
      var lines, rest := LinesOf(init, nl), Rest(init, nl);
      AppendIsAssociative(Terminated(lines, nl), rest, [last]);
      assert (lines + [rest])[..|lines|] == lines;
    }
  }

  lemma OneLine<T>(line: seq<T>, nl: T)
    requires nl !in line
    ensures LinesOf(line + [nl], nl) == [line] && Rest(line + [nl], nl) == []
  {
    assert (line + [nl])[..|line|] == line;
    NoTerminatorNoLine(line, nl);
  }

  lemma {:induction false} TerminatedLinesEnd<T>(lines: seq<seq<T>>, nl: T)
    requires Unbroken(lines, nl)
    ensures LinesOf(Terminated(lines, nl), nl) == lines && Rest(Terminated(lines, nl), nl) == []
    decreases |lines|
  {
    if lines != [] {
      hide LinesOf, Rest;
      var init, last := lines[..|lines| - 1], lines[|lines| - 1];
      TerminatedLinesEnd(init, nl);
      LinesConcat(Terminated(init, nl), last + [nl], nl);
      assert [] + (last + [nl]) == last + [nl];
      OneLine(last, nl);
      assert lines == init + [last];
    }
  }

  lemma TerminatedLinesReadBack<T>(lines: seq<seq<T>>, rest: seq<T>, nl: T)
    requires Unbroken(lines, nl) && nl !in rest
    ensures LinesOf(Terminated(lines, nl) + rest, nl) == lines && Rest(Terminated(lines, nl) + rest, nl) == rest
  {
    hide LinesOf, Rest, Terminated;
    TerminatedLinesEnd(lines, nl);
    LinesConcat(Terminated(lines, nl), rest, nl);
    assert [] + rest == rest;
    NoTerminatorNoLine(rest, nl);
    assert lines + [] == lines;
  }

  /** `LinesOf` and `Rest` are the only way to cut a text into terminated lines and an unterminated end. */
  lemma LinesAreTheOnlyCut<T>(s: seq<T>, nl: T, lines: seq<seq<T>>, rest: seq<T>)
    ensures (Unbroken(lines, nl) && nl !in rest && Terminated(lines, nl) + rest == s)
            <==> (lines == LinesOf(s, nl) && rest == Rest(s, nl))
  {
    LinesReassemble(s, nl);
    if Unbroken(lines, nl) && nl !in rest && Terminated(lines, nl) + rest == s {
      TerminatedLinesReadBack(lines, rest, nl);
    }
  }

  /** Where the first `nl` stands, if anywhere. */
  function IndexOf<T(==)>(s: seq<T>, nl: T): (i: Option<nat>)
    ensures i.None? ==> nl !in s
    ensures i.Some? ==> i.value < |s| && s[i.value] == nl && nl !in s[..i.value]
  {
    if s == [] then None
    else if s[0] == nl then Some(0)
    else
      var i := IndexOf(s[1..], nl);
      assert s == [s[0]] + s[1..];
      if i.None? then None
      else
        assert s[..1 + i.value] == [s[0]] + s[1..][..i.value];
        Some(1 + i.value)
  }

  /** A newline sought and cut off, as the reading loops do. */
  lemma CutAtIndex<T>(s: seq<T>, nl: T)
    ensures match IndexOf(s, nl)
      case None => LinesOf(s, nl) == [] && Rest(s, nl) == s
      case Some(i) => LinesOf(s, nl) == [s[..i]] + LinesOf(s[i + 1..], nl) && Rest(s, nl) == Rest(s[i + 1..], nl)
  {
    match IndexOf(s, nl)
    case None => NoTerminatorNoLine(s, nl);
    case Some(i) =>
      assert s == s[..i] + [nl] + s[i + 1..];
      TakeLine(s[..i], s[i + 1..], nl);
  }
}
