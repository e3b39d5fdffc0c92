/** The ICE candidate line of the analyser (`Candidate.__init__`,
    analyze.py:34-50): the line is split on whitespace and the fields are
    taken by position:

      label index component transport priority address port marker type ...

    The label must be exactly `a=candidate` or `candidate`, as a token of its
    own followed by a numeric index. The `candidate-attribute` grammar of
    section 15.1 of RFC 5245 instead joins the foundation to the label
    (`a=candidate:1 1 UDP ...`); such a line is rejected as not a candidate.
    The marker (the eighth token, `typ` in a well-formed line) is compared
    with `typ` only to print a console notice; the candidate ignores it, and
    so does the model. Any tokens after the type are ignored. */
module Candidates {
  import opened Errors
  import Text

  /** A parsed candidate, stamped with the time of the event it came from. */
  datatype Candidate = Candidate(
    time: int,
    text: string,
    index: int,
    component: int,
    transport: string,
    priority: int,
    address: string,
    port: int,
    kind: string)

  /** The two labels the parser accepts. */
  predicate IsLabel(w: string)
  {
    w == "a=candidate" || w == "candidate"
  }

  /** The fields of a candidate from the tokens of its line: `None` when a
      token is missing (`pop` on an empty list) or a numeric field is not an
      integer (`int` raises). */
  function FieldsOf(time: int, line: string, v: seq<string>): Option<Candidate>
  {
    if |v| < 9 then None
    else
      match (Text.ParseInt(v[1]), Text.ParseInt(v[2]), Text.ParseInt(v[4]), Text.ParseInt(v[6]))
      case (Some(index), Some(component), Some(priority), Some(port)) =>
        Some(Candidate(time, line, index, component, v[3], priority, v[5], port, v[8]))
      case _ => None
  }

  /** `Candidate(t, c)`: an empty line or one with too few or non-numeric
      fields raises; a line with another label dies "Not a candidate". */
  function Parse(time: int, line: string): (r: Result<Candidate>)
    ensures r.Ok? ==> r.value.time == time && r.value.text == line
    ensures r.Err? ==> r.fault == NotACandidate(line) || r.fault == MalformedCandidate(line)
  {
    var v := Text.Words(line);
    if |v| == 0 then Err(MalformedCandidate(line))
    else if !IsLabel(v[0]) then Err(NotACandidate(line))
    else
      match FieldsOf(time, line, v)
      case None => Err(MalformedCandidate(line))
      case Some(c) => Ok(c)
  }

  /** A line whose first token is not a candidate label is fatal, whatever
      follows it. */
  lemma UnknownLabelIsFatal(time: int, ws: seq<string>)
    requires |ws| > 0 && !IsLabel(ws[0])
    requires forall i :: 0 <= i < |ws| ==> Text.IsToken(ws[i])
    ensures Parse(time, Text.Join(ws, " ")) == Err(NotACandidate(Text.Join(ws, " ")))
  {
    Text.WordsOfJoin(ws);
  }

  /** With a candidate label and at least nine tokens whose numeric ones are
      integers, tokens 2-7 are index, component, transport, priority,
      address and port and token 9 is the type; token 8 is not looked at. */
  lemma PositionalFields(time: int, ws: seq<string>)
    requires |ws| >= 9 && IsLabel(ws[0])
    requires forall i :: 0 <= i < |ws| ==> Text.IsToken(ws[i])
    requires Text.ParseInt(ws[1]).Some? && Text.ParseInt(ws[2]).Some?
    requires Text.ParseInt(ws[4]).Some? && Text.ParseInt(ws[6]).Some?
    ensures var line := Text.Join(ws, " ");
      Parse(time, line) == Ok(Candidate(time, line,
        Text.ParseInt(ws[1]).value, Text.ParseInt(ws[2]).value, ws[3],
        Text.ParseInt(ws[4]).value, ws[5], Text.ParseInt(ws[6]).value, ws[8]))
  {
    Text.WordsOfJoin(ws);
  }

  /** Too few tokens after a candidate label is fatal. */
  lemma ShortLineIsMalformed(time: int, ws: seq<string>)
    requires 0 < |ws| < 9 && IsLabel(ws[0])
    requires forall i :: 0 <= i < |ws| ==> Text.IsToken(ws[i])
    ensures Parse(time, Text.Join(ws, " ")) == Err(MalformedCandidate(Text.Join(ws, " ")))
  {
    Text.WordsOfJoin(ws);
  }

  /** The eighth token has no effect on the parsed fields: a line whose
      marker is not `typ` parses like the same line with `typ`. */
  lemma MarkerIgnored(time: int, ws: seq<string>, marker: string)
    requires |ws| >= 9
    requires forall i :: 0 <= i < |ws| ==> Text.IsToken(ws[i])
    requires Text.IsToken(marker)
    ensures var a, b := Text.Join(ws, " "), Text.Join(ws[7 := marker], " ");
      && Parse(time, a).Ok? == Parse(time, b).Ok?
      && (Parse(time, a).Ok? ==> Parse(time, a).value.(text := b) == Parse(time, b).value)
  {
    var ws' := ws[7 := marker];
    assert forall i :: 0 <= i < |ws'| ==> Text.IsToken(ws'[i]);
    Text.WordsOfJoin(ws);
    Text.WordsOfJoin(ws');
  }

  /** The text of a candidate as a well-formed line: the label, the fields in
      order and the marker `typ` before the type. */
  function Format(c: Candidate): string
  {
    Text.Join(["candidate", Text.Show(c.index), Text.Show(c.component), c.transport,
               Text.Show(c.priority), c.address, Text.Show(c.port), "typ", c.kind], " ")
  }

  /** Parsing a formatted candidate gives its fields back. */
  lemma ParseOfFormat(time: int, c: Candidate)
    requires Text.IsToken(c.transport) && Text.IsToken(c.address) && Text.IsToken(c.kind)
    ensures Parse(time, Format(c)) == Ok(c.(time := time, text := Format(c)))
  {
    var ws := ["candidate", Text.Show(c.index), Text.Show(c.component), c.transport,
               Text.Show(c.priority), c.address, Text.Show(c.port), "typ", c.kind];
    assert Text.IsToken("candidate") && Text.IsToken("typ");
    Text.ParseIntOfShow(c.index);
    Text.ParseIntOfShow(c.component);
    Text.ParseIntOfShow(c.priority);
    Text.ParseIntOfShow(c.port);
    PositionalFields(time, ws);
  }
}
