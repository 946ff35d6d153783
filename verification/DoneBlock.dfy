/** What a Done block lists, said of its lines as they are written (runner/core/plan-index.ts). */
module DoneBlock {
  import opened Collections
  import opened JsText
  import opened PlanText
  import opened PlanTasks
  import opened Tasks

  /** A line of a block, with the space around what it says. */
  datatype BodyLine =
    | CommandLine(lead: string, command: string, trail: string)
    | ContinuedLine(lead: string, text: string, trail: string)
    | CommentLine(lead: string, comment: string, trail: string)
    | BlankLine(lead: string, trail: string)

  /** What the line says: a command, a command to be continued by a backslash, a comment, or nothing. */
  function Said(l: BodyLine): string {
    match l
    case CommandLine(_, command, _) => command
    case ContinuedLine(_, text, _) => text + "\\"
    case CommentLine(_, comment, _) => "#" + comment
    case BlankLine(_, _) => ""
  }

  function LineText(l: BodyLine): string {
    l.lead + (Said(l) + l.trail)
  }

  function BodyText(body: seq<BodyLine>): (lines: seq<string>)
    ensures |lines| == |body|
  {
    seq(|body|, i requires 0 <= i < |body| => LineText(body[i]))
  }

  predicate IsWritten(l: BodyLine) {
    && AllSpace(l.lead) && AllSpace(l.trail) && Trimmed(Said(l))
    && match l
       case CommandLine(_, command, _) => command != "" && command[0] != '#' && command[|command| - 1] != '\\'
       case ContinuedLine(_, text, _) => text != "" ==> text[0] != '#'
       case CommentLine(_, _, _) => true
       case BlankLine(_, _) => true
  }

  predicate AreWritten(body: seq<BodyLine>) {
    forall i :: 0 <= i < |body| ==> IsWritten(body[i])
  }

  /** The commands, in order. */
  function Listed(body: seq<BodyLine>): (commands: seq<string>) {
    if body == [] then []
    else
      var n := |body| - 1;
      Listed(body[..n]) + if body[n].CommandLine? then [body[n].command] else []
  }

  predicate IsContinued(body: seq<BodyLine>) {
    exists i :: 0 <= i < |body| && body[i].ContinuedLine?
  }

  // ----- trimming

  lemma {:induction false} TrimStartOf(lead: string, rest: string)
    requires AllSpace(lead) && (rest == "" || !IsSpace(rest[0]))
    ensures TrimStart(lead + rest) == rest
    decreases |lead|
  {
    hide IsSpace;
    if lead == "" {
      assert lead + rest == rest;
    } else {
      assert (lead + rest)[1..] == lead[1..] + rest;
      TrimStartOf(lead[1..], rest);
    }
  }

  lemma {:induction false} TrimEndOf(said: string, trail: string)
    requires AllSpace(trail) && (said == "" || !IsSpace(said[|said| - 1]))
    ensures TrimEnd(said + trail) == said
    decreases |trail|
  {
    hide IsSpace;
    if trail == "" {
      assert said + trail == said;
    } else {
      var s := said + trail;
      assert s[..|s| - 1] == said + trail[..|trail| - 1];
      TrimEndOf(said, trail[..|trail| - 1]);
    }
  }

  lemma {:induction false} TrimStartOfSpace(s: string)
    requires AllSpace(s)
    ensures TrimStart(s) == ""
  {
    hide IsSpace;
    if s != "" {
      TrimStartOfSpace(s[1..]);
    }
  }

  /** Trimming a line leaves what it says. */
  lemma TrimOfLine(lead: string, said: string, trail: string)
    requires AllSpace(lead) && AllSpace(trail) && Trimmed(said)
    ensures Trim(lead + (said + trail)) == said
  {
    hide TrimStart, TrimEnd, IsSpace;
    if said == "" {
      var s := lead + (said + trail);
      assert s == lead + trail && AllSpace(s);
      TrimStartOfSpace(s);
      TrimEndOf("", "");
      assert "" + "" == "";
    } else {
      TrimStartOf(lead, said + trail);
      TrimEndOf(said, trail);
    }
  }

  lemma LineSays(l: BodyLine)
    requires IsWritten(l)
    ensures CommandOf(LineText(l)) == match l
      case CommandLine(_, command, _) => Some(command)
      case ContinuedLine(_, text, _) => Some(text + "\\")
      case CommentLine(_, _, _) => None
      case BlankLine(_, _) => None
    ensures Continues(LineText(l)) <==> l.ContinuedLine?
  {
    TrimOfLine(l.lead, Said(l), l.trail);
    hide Trim, AllSpace, Trimmed;
  }

  lemma {:induction false} CommandsAreListed(body: seq<BodyLine>)
    requires AreWritten(body) && !IsContinued(body)
    ensures CommandsIn(BodyText(body)) == Listed(body)
    decreases |body|
  {
    hide IsWritten, CommandOf, LineText;
    if body != [] {
      var n := |body| - 1;
      CommandsAreListed(body[..n]);
      assert BodyText(body)[..n] == BodyText(body[..n]);
      LineSays(body[n]);
    }
  }

  lemma ContinuedAsWritten(body: seq<BodyLine>)
    requires AreWritten(body)
    ensures Continued(BodyText(body)) <==> IsContinued(body)
  {
    hide IsWritten, Continues, LineText;
    forall i | 0 <= i < |body| ensures Continues(BodyText(body)[i]) <==> body[i].ContinuedLine? {
      LineSays(body[i]);
    }
  }

  /** A block lists exactly its commands, in order: comments and blank lines, wherever they stand, are none, a block of
      these alone is refused as empty, and a continued command refuses the block. */
  lemma BlockListsItsCommands(ref: TaskRef, body: seq<BodyLine>)
    requires AreWritten(body)
    ensures TaskFrom(ref, BodyText(body)) ==
            if IsContinued(body) then Refused(ContinuationNotSupported)
            else if Listed(body) == [] then Refused(EmptyDone)
            else Resolved(ResolvedTask(ref.id, ref.heading, Listed(body)))
  {
    ContinuedAsWritten(body);
    if !IsContinued(body) {
      CommandsAreListed(body);
    }
  }

  // ----- these are all the lines there are

  lemma SpaceInFront(s: string) returns (lead: string)
    ensures AllSpace(lead) && s == lead + TrimStart(s)
  {
    hide IsSpace, TrimStart;
    var n := |s| - |TrimStart(s)|;
    lead := s[..n];
    forall i | 0 <= i < n ensures IsSpace(s[i]) {
      TrimStartStripsSpace(s, i);
    }
  }

  lemma {:induction false} SpaceBehind(s: string) returns (trail: string)
    ensures AllSpace(trail) && s == TrimEnd(s) + trail
    decreases |s|
  {
    hide IsSpace;
    if s == "" || !IsSpace(s[|s| - 1]) {
      trail := "";
    } else {
      var n := |s| - 1;
      trail := SpaceBehind(s[..n]);
      assert s == TrimEnd(s[..n]) + (trail + [s[n]]);
      trail := trail + [s[n]];
    }
  }

  lemma TrimIsTrimmed(s: string)
    ensures Trimmed(Trim(s))
  {
    var t := TrimStart(s);
    var m := TrimEnd(t);
    if m != "" {
      assert m[0] == t[0];
    }
  }

  /** Every line is of one of the four kinds. */
  lemma EveryLineIsWritten(line: string) returns (l: BodyLine)
    ensures IsWritten(l) && LineText(l) == line
  {
    hide IsSpace, TrimStart, TrimEnd;
    var lead := SpaceInFront(line);
    var trail := SpaceBehind(TrimStart(line));
    var said := Trim(line);
    TrimIsTrimmed(line);
    if said == "" {
      l := BlankLine(lead, trail);
    } else if said[0] == '#' {
      l := CommentLine(lead, said[1..], trail);
      assert "#" + said[1..] == said;
    } else if said[|said| - 1] == '\\' {
      l := ContinuedLine(lead, said[..|said| - 1], trail);
      assert said[..|said| - 1] + "\\" == said;
    } else {
      l := CommandLine(lead, said, trail);
    }
  }

  /** So the theorem above speaks of every block. */
  lemma {:induction false} EveryBlockIsWritten(lines: seq<string>) returns (body: seq<BodyLine>)
    ensures AreWritten(body) && BodyText(body) == lines
    decreases |lines|
  {
    hide IsWritten, LineText;
    if lines == [] {
      body := [];
    } else {
      var n := |lines| - 1;
      body := EveryBlockIsWritten(lines[..n]);
      var l := EveryLineIsWritten(lines[n]);
      assert BodyText(body + [l]) == BodyText(body) + [LineText(l)];
      body := body + [l];
    }
  }
}
