/** One call of the signalling log (`Call`, analyze.py:81-225): the offer,
    answer and trickled candidates gathered from the rows of the call, and
    the analysis that expands them and files the call under failure,
    warning and direction reasons.

    The pure functions `Ingest`, `Expanded`, `Judge` and `Classify` state
    what the methods of `Call` compute; the methods update the call's fields
    step by step as the analyser does and are proved against them. */
module Calls {
  import opened Errors
  import Text
  import Sdp
  import Candidates
  import Address
  import opened Tallies

  /** `val.split('????')` always yields at least one line. */
  type SdpLines = s: seq<string> | |s| >= 1 witness [""]

  /** A row's SDP lines and its time in whole seconds (`Event`,
      analyze.py:68-74). */
  datatype Event = Event(lines: SdpLines, time: int)

  /** `Event.convert_date` (analyze.py:76-79): the whole seconds since the
      epoch of a date column, or `None` when `strptime` rejects it. The
      calendar arithmetic of the library is not part of this model, so it
      is a parameter. */
  type DateParser = string -> Option<int>

  /** A row as `add_value` receives it: the columns by header name, with the
      `sdp` column already split into lines. */
  datatype Value = Value(fields: map<string, string>, sdp: SdpLines)

  /** What the rows of a call have delivered: at most one offer, at most
      one answer, and the trickled candidate events in arrival order. */
  datatype Exchange = Exchange(offer: Option<Event>, answer: Option<Event>, candidates: seq<Event>)

  /** A new call has seen nothing. */
  const NoExchange: Exchange := Exchange(None, None, [])

  // ---------------------------------------------------------------------------
  // Ingestion: add_value, add_offer, add_answer, add_candidate

  /** One event of type `kind`: a second offer or answer is fatal, a
      candidate is appended, and any other type changes nothing. */
  function Ingest(ex: Exchange, kind: string, ev: Event): (r: Result<Exchange>)
    ensures r.Err? <==> (kind == "offer" && ex.offer.Some?) || (kind == "answer" && ex.answer.Some?)
    ensures r.Ok? && ex.offer.Some? ==> r.value.offer == ex.offer
    ensures r.Ok? && ex.answer.Some? ==> r.value.answer == ex.answer
    ensures r.Ok? ==> ex.candidates <= r.value.candidates
    ensures kind != "offer" && kind != "answer" && kind != "candidate" ==> r == Ok(ex)
  {
    if kind == "offer" then
      if ex.offer.Some? then Err(MultipleOffers) else Ok(ex.(offer := Some(ev)))
    else if kind == "answer" then
      if ex.answer.Some? then Err(MultipleAnswers) else Ok(ex.(answer := Some(ev)))
    else if kind == "candidate" then Ok(ex.(candidates := ex.candidates + [ev]))
    else Ok(ex)
  }

  /** `add_value` on a row: the event is built first (a missing `date`
      column raises, and so does a date `strptime` rejects), then the `type`
      column is read (a missing one raises). */
  function Added(ex: Exchange, v: Value, dateOf: DateParser): Result<Exchange>
  {
    if "date" !in v.fields then Err(MissingColumn("date"))
    else if dateOf(v.fields["date"]).None? then Err(MalformedDate(v.fields["date"]))
    else if "type" !in v.fields then Err(MissingColumn("type"))
    else Ingest(ex, v.fields["type"], Event(v.sdp, dateOf(v.fields["date"]).value))
  }

  /** The events among `items` whose type is `kind`, in order. */
  function Of(items: seq<(string, Event)>, kind: string): seq<Event>
    decreases |items|
  {
    if items == [] then []
    else
      var last := items[|items| - 1];
      Of(items[..|items| - 1], kind) + (if last.0 == kind then [last.1] else [])
  }

  /** An optional event as a list of none or one. */
  function Opt(e: Option<Event>): seq<Event>
  {
    if e.None? then [] else [e.value]
  }

  /** A sequence of events ingested in order; the first fault stops it. */
  function IngestAll(ex: Exchange, items: seq<(string, Event)>): Result<Exchange>
    decreases |items|
  {
    if items == [] then Ok(ex)
    else
      var before :- IngestAll(ex, items[..|items| - 1]);
      Ingest(before, items[|items| - 1].0, items[|items| - 1].1)
  }

  /** Ingesting events succeeds exactly when they add at most one offer and
      at most one answer to what the call holds; then the offer and answer
      are the ones delivered and the candidates are those held followed by
      the candidate events in arrival order. */
  lemma {:induction false} IngestAllMeaning(ex: Exchange, items: seq<(string, Event)>)
    ensures IngestAll(ex, items).Ok? <==>
      |Opt(ex.offer) + Of(items, "offer")| <= 1 && |Opt(ex.answer) + Of(items, "answer")| <= 1
    ensures IngestAll(ex, items).Ok? ==>
      && Opt(IngestAll(ex, items).value.offer) == Opt(ex.offer) + Of(items, "offer")
      && Opt(IngestAll(ex, items).value.answer) == Opt(ex.answer) + Of(items, "answer")
      && IngestAll(ex, items).value.candidates == ex.candidates + Of(items, "candidate")
    decreases |items|
  {
    if items != [] {
      var init := items[..|items| - 1];
      var (kind, ev) := items[|items| - 1];
      IngestAllMeaning(ex, init);
      assert |Of(init, "offer")| <= |Of(items, "offer")|;
      assert |Of(init, "answer")| <= |Of(items, "answer")|;
      if IngestAll(ex, init).Ok? {
        var before := IngestAll(ex, init).value;
        assert IngestAll(ex, items) == Ingest(before, kind, ev);
        if kind == "candidate" {
          assert ex.candidates + Of(items, "candidate") == ex.candidates + Of(init, "candidate") + [ev];
        }
      }
    }
  }

  // ---------------------------------------------------------------------------
  // expand_candidates

  /** The lines `expand_candidates` picks from an SDP body: those containing
      `a=candidate` anywhere. */
  function CandidateLines(lines: seq<string>): seq<string>
    decreases |lines|
  {
    if lines == [] then []
    else
      var l := lines[|lines| - 1];
      CandidateLines(lines[..|lines| - 1]) + (if Text.Contains(l, "a=candidate") then [l] else [])
  }

  /** Parsing the candidate lines of a body, stamped with `time`; the first
      line that does not parse aborts. */
  function ParseAll(time: int, lines: seq<string>): Result<seq<Candidates.Candidate>>
    decreases |lines|
  {
    if lines == [] then Ok([])
    else
      var before :- ParseAll(time, lines[..|lines| - 1]);
      var l := lines[|lines| - 1];
      if Text.Contains(l, "a=candidate") then
        var c :- Candidates.Parse(time, l);
        Ok(before + [c])
      else Ok(before)
  }

  /** Parsing one candidate per trickled event, from its first SDP line and
      stamped with its own time. */
  function ParseTrickled(events: seq<Event>): Result<seq<Candidates.Candidate>>
    decreases |events|
  {
    if events == [] then Ok([])
    else
      var before :- ParseTrickled(events[..|events| - 1]);
      var e := events[|events| - 1];
      var c :- Candidates.Parse(e.time, e.lines[0]);
      Ok(before + [c])
  }

  /** The answer's candidates: those of its body, then the trickled ones. */
  function AnswerCandidates(answer: Event, trickled: seq<Event>): Result<seq<Candidates.Candidate>>
  {
    var body :- ParseAll(answer.time, answer.lines);
    var more :- ParseTrickled(trickled);
    Ok(body + more)
  }

  /** A fault in a prefix of the lines is the fault of the whole body. */
  lemma {:induction false} ParseAllPrefixErr(time: int, lines: seq<string>, k: nat)
    requires k <= |lines| && ParseAll(time, lines[..k]).Err?
    ensures ParseAll(time, lines) == ParseAll(time, lines[..k])
    decreases |lines|
  {
    if k < |lines| {
      var init := lines[..|lines| - 1];
      assert init[..k] == lines[..k];
      ParseAllPrefixErr(time, init, k);
    } else {
      assert lines[..k] == lines;
    }
  }

  lemma {:induction false} ParseTrickledPrefixErr(events: seq<Event>, k: nat)
    requires k <= |events| && ParseTrickled(events[..k]).Err?
    ensures ParseTrickled(events) == ParseTrickled(events[..k])
    decreases |events|
  {
    if k < |events| {
      var init := events[..|events| - 1];
      assert init[..k] == events[..k];
      ParseTrickledPrefixErr(init, k);
    } else {
      assert events[..k] == events;
    }
  }

  /** A line `expand_candidates` picks but cannot parse. */
  predicate Unparsable(time: int, l: string)
  {
    Text.Contains(l, "a=candidate") && Candidates.Parse(time, l).Err?
  }

  /** Parsing a body aborts exactly when one of its candidate lines does not
      parse. */
  lemma {:induction false} ParseAllFails(time: int, lines: seq<string>)
    ensures ParseAll(time, lines).Err? <==> exists i :: 0 <= i < |lines| && Unparsable(time, lines[i])
    decreases |lines|
  {
    if lines != [] {
      var init := lines[..|lines| - 1];
      ParseAllFails(time, init);
      assert forall i :: 0 <= i < |init| ==> lines[i] == init[i];
      if ParseAll(time, init).Err? {
        var i :| 0 <= i < |init| && Unparsable(time, init[i]);
        assert lines[i] == init[i];
      }
    }
  }

  /** A body that parses gives one candidate per candidate line, in order:
      the one that line parses to, carrying the line and the body's time. */
  lemma {:induction false} ParseAllShape(time: int, lines: seq<string>)
    requires ParseAll(time, lines).Ok?
    ensures |ParseAll(time, lines).value| == |CandidateLines(lines)|
    ensures forall i :: 0 <= i < |CandidateLines(lines)| ==>
      ParseAll(time, lines).value[i].time == time && ParseAll(time, lines).value[i].text == CandidateLines(lines)[i]
    ensures forall i :: 0 <= i < |CandidateLines(lines)| ==>
      Candidates.Parse(time, CandidateLines(lines)[i]) == Ok(ParseAll(time, lines).value[i])
    decreases |lines|
  {
    if lines != [] {
      var init := lines[..|lines| - 1];
      ParseAllShape(time, init);
    }
  }

  /** Trickled events abort exactly when the first line of one of them does
      not parse. */
  lemma {:induction false} ParseTrickledFails(events: seq<Event>)
    ensures ParseTrickled(events).Err? <==>
      exists i :: 0 <= i < |events| && Candidates.Parse(events[i].time, events[i].lines[0]).Err?
    decreases |events|
  {
    if events != [] {
      var init := events[..|events| - 1];
      ParseTrickledFails(init);
      assert forall i :: 0 <= i < |init| ==> events[i] == init[i];
      if ParseTrickled(init).Err? {
        var i :| 0 <= i < |init| && Candidates.Parse(init[i].time, init[i].lines[0]).Err?;
        assert events[i] == init[i];
      }
    }
  }

  /** Trickled events that parse give one candidate each, in order: the one
      the event's first line parses to, stamped with the event's own time. */
  lemma {:induction false} ParseTrickledShape(events: seq<Event>)
    requires ParseTrickled(events).Ok?
    ensures |ParseTrickled(events).value| == |events|
    ensures forall i :: 0 <= i < |events| ==>
      ParseTrickled(events).value[i].time == events[i].time
      && ParseTrickled(events).value[i].text == events[i].lines[0]
    ensures forall i :: 0 <= i < |events| ==>
      Candidates.Parse(events[i].time, events[i].lines[0]) == Ok(ParseTrickled(events).value[i])
    decreases |events|
  {
    if events != [] {
      ParseTrickledShape(events[..|events| - 1]);
    }
  }

  /** `cs` is one candidate per line of `lines`, the one it parses to at
      `time`, followed by one candidate per trickled event, the one the
      event's first line parses to at the event's own time. */
  predicate Stamped(cs: seq<Candidates.Candidate>, time: int, lines: seq<string>, trickled: seq<Event>)
  {
    var n := |lines|;
    && |cs| == n + |trickled|
    && (forall i :: 0 <= i < n ==> cs[i].time == time && cs[i].text == lines[i])
    && (forall j :: n <= j < |cs| ==> cs[j].time == trickled[j - n].time && cs[j].text == trickled[j - n].lines[0])
    && (forall i :: 0 <= i < n ==> Candidates.Parse(time, lines[i]) == Ok(cs[i]))
    && (forall j :: n <= j < |cs| ==> Candidates.Parse(trickled[j - n].time, trickled[j - n].lines[0]) == Ok(cs[j]))
  }

  /** The answer's candidates are those its body's candidate lines parse
      to, in order and stamped with the answer's time, followed by one
      candidate per trickled event, parsed from that event's first line and
      stamped with its time. */
  lemma AnswerCandidatesShape(answer: Event, trickled: seq<Event>)
    requires AnswerCandidates(answer, trickled).Ok?
    ensures Stamped(AnswerCandidates(answer, trickled).value, answer.time, CandidateLines(answer.lines), trickled)
  {
    var b, m := ParseAll(answer.time, answer.lines).value, ParseTrickled(trickled).value;
    assert AnswerCandidates(answer, trickled).value == b + m;
    ParseAllShape(answer.time, answer.lines);
    ParseTrickledShape(trickled);
    StampedConcat(b, m, AnswerCandidates(answer, trickled).value, answer.time, CandidateLines(answer.lines), trickled);
  }

  /** The index arithmetic of `AnswerCandidatesShape`, on plain sequences. */
  lemma StampedConcat(b: seq<Candidates.Candidate>, m: seq<Candidates.Candidate>, cs: seq<Candidates.Candidate>,
                      time: int, lines: seq<string>, trickled: seq<Event>)
    requires cs == b + m
    requires |b| == |lines| && |m| == |trickled|
    requires forall i :: 0 <= i < |lines| ==> b[i].time == time && b[i].text == lines[i]
    requires forall j :: 0 <= j < |trickled| ==> m[j].time == trickled[j].time && m[j].text == trickled[j].lines[0]
    requires forall i :: 0 <= i < |lines| ==> Candidates.Parse(time, lines[i]) == Ok(b[i])
    requires forall j :: 0 <= j < |trickled| ==> Candidates.Parse(trickled[j].time, trickled[j].lines[0]) == Ok(m[j])
    ensures Stamped(cs, time, lines, trickled)
  {
    forall j | |lines| <= j < |cs|
      ensures cs[j] == m[j - |lines|]
    {
    }
  }

  /** The loop of `expand_candidates` over an SDP body. */
  method CollectCandidates(time: int, lines: seq<string>) returns (r: Result<seq<Candidates.Candidate>>)
    ensures r == ParseAll(time, lines)
  {
    var found := [];
    for i := 0 to |lines|
      invariant ParseAll(time, lines[..i]) == Ok(found)
    {
      assert lines[..i + 1][..i] == lines[..i];
      var l := lines[i];
      if Text.Contains(l, "a=candidate") {
        var c := Candidates.Parse(time, l);
        if c.Err? {
          ParseAllPrefixErr(time, lines, i + 1);
          return Err(c.fault);
        }
        found := found + [c.value];
      }
    }
    assert lines[..|lines|] == lines;
    return Ok(found);
  }

  /** The loop of `expand_candidates` over the trickled events. */
  method CollectTrickled(events: seq<Event>) returns (r: Result<seq<Candidates.Candidate>>)
    ensures r == ParseTrickled(events)
  {
    var found := [];
    for i := 0 to |events|
      invariant ParseTrickled(events[..i]) == Ok(found)
    {
      assert events[..i + 1][..i] == events[..i];
      var e := events[i];
      var c := Candidates.Parse(e.time, e.lines[0]);
      if c.Err? {
        ParseTrickledPrefixErr(events, i + 1);
        return Err(c.fault);
      }
      found := found + [c.value];
    }
    assert events[..|events|] == events;
    return Ok(found);
  }

  // ---------------------------------------------------------------------------
  // The public-candidate count of analyze

  /** The number of candidates whose address `is_public`; an address that
      does not parse aborts. */
  function PublicCount(cands: seq<Candidates.Candidate>): (r: Result<nat>)
    ensures r.Ok? ==> r.value <= |cands|
    decreases |cands|
  {
    if cands == [] then Ok(0)
    else
      var before :- PublicCount(cands[..|cands| - 1]);
      var p :- Address.Public(cands[|cands| - 1].address);
      Ok(before + if p then 1 else 0)
  }

  lemma {:induction false} PublicCountPrefixErr(cands: seq<Candidates.Candidate>, k: nat)
    requires k <= |cands| && PublicCount(cands[..k]).Err?
    ensures PublicCount(cands) == PublicCount(cands[..k])
    decreases |cands|
  {
    if k < |cands| {
      var init := cands[..|cands| - 1];
      assert init[..k] == cands[..k];
      PublicCountPrefixErr(init, k);
    } else {
      assert cands[..k] == cands;
    }
  }

  /** The counting loop of `analyze` over the answer's candidates. */
  method CountPublic(cands: seq<Candidates.Candidate>) returns (r: Result<nat>)
    ensures r == PublicCount(cands)
  {
    var public := 0;
    for i := 0 to |cands|
      invariant PublicCount(cands[..i]) == Ok(public)
    {
      assert cands[..i + 1][..i] == cands[..i];
      var p := Address.IsPublic(cands[i].address);
      if p.Err? {
        PublicCountPrefixErr(cands, i + 1);
        return Err(p.fault);
      }
      if p.value {
        public := public + 1;
      }
    }
    assert cands[..|cands|] == cands;
    return Ok(public);
  }

  // ---------------------------------------------------------------------------
  // expand and the classification of analyze

  /** What `expand` leaves in a call's fields. */
  datatype Expansion = Expansion(
    expandedOffer: seq<seq<string>>,
    expandedAnswer: seq<seq<string>>,
    offerCandidates: seq<Candidates.Candidate>,
    answerCandidates: seq<Candidates.Candidate>,
    accepted: nat,
    direction: Option<Sdp.Direction>)

  /** `expand` on an exchange with offer and answer, from the direction
      `d0` the call holds: both bodies are segmented, the offer's candidate
      lines parsed, then the answer's candidates, then the answer's sections
      scanned for accepted media. */
  function Expanded(ex: Exchange, d0: Option<Sdp.Direction>): Result<Expansion>
    requires ex.offer.Some? && ex.answer.Some?
  {
    var offer, answer := ex.offer.value, ex.answer.value;
    var oc :- ParseAll(offer.time, offer.lines);
    var ac :- AnswerCandidates(answer, ex.candidates);
    var secs := Sdp.Segments(answer.lines);
    Ok(Expansion(Sdp.Segments(offer.lines), secs, oc, ac,
                 Sdp.AcceptedCount(secs), Sdp.DirectionAfter(d0, secs)))
  }

  /** `Expanded` step by step: it fails with the offer's fault, else with
      the answer's, else it holds both segmentations, both candidate lists
      and the scan of the answer's sections. */
  lemma ExpandedCases(ex: Exchange, d0: Option<Sdp.Direction>)
    requires ex.offer.Some? && ex.answer.Some?
    ensures var oc, ac := ParseAll(ex.offer.value.time, ex.offer.value.lines), AnswerCandidates(ex.answer.value, ex.candidates);
      var secs := Sdp.Segments(ex.answer.value.lines);
      && (Expanded(ex, d0).Ok? <==> oc.Ok? && ac.Ok?)
      && (Expanded(ex, d0).Err? ==> Expanded(ex, d0).fault == if oc.Err? then oc.fault else ac.fault)
      && (Expanded(ex, d0).Ok? ==>
            Expanded(ex, d0).value == Expansion(Sdp.Segments(ex.offer.value.lines), secs, oc.value, ac.value,
                                                Sdp.AcceptedCount(secs), Sdp.DirectionAfter(d0, secs)))
  {
  }

  /** The number of accepted media sections is the number of answer
      sections with an accepting direction line, at most the number of
      m-lines of the answer; the expected component count is twice it. */
  lemma AcceptedBounds(ex: Exchange, d0: Option<Sdp.Direction>)
    requires ex.offer.Some? && ex.answer.Some? && Expanded(ex, d0).Ok?
    ensures var x := Expanded(ex, d0);
      && x.value.accepted == Sdp.AcceptedCount(Sdp.Segments(ex.answer.value.lines))
      && x.value.accepted <= Sdp.CountMLines(ex.answer.value.lines)
  {
    Sdp.SegmentsCount(ex.answer.value.lines);
  }

  /** Lines 211-225 of `analyze`: the failure rules on the answer's
      candidates, given the number of accepted media sections.  No
      candidate at all fails the call and stops; otherwise it fails for too
      few candidates and then for too few public ones, two per accepted
      section being expected. */
  function Rules(cands: seq<Candidates.Candidate>, accepted: nat): (r: Result<seq<Note>>)
    ensures r.Err? <==> cands != [] && PublicCount(cands).Err?
    ensures r.Ok? ==> forall k :: 0 <= k < |r.value| ==> r.value[k].Failure?
    ensures cands == [] ==> r == Ok([Failure(NoAnswerCandidates)])
    ensures r.Ok? && cands != [] ==>
      && (Failure(TooFewAnswerCandidates) in r.value <==> |cands| < 2 * accepted)
      && (Failure(TooFewPublicCandidates) in r.value <==> PublicCount(cands).value < 2 * accepted)
      && Failure(NoAnswerCandidates) !in r.value
  {
    var n, expected := |cands|, 2 * accepted;
    if n == 0 then Ok([Failure(NoAnswerCandidates)])
    else
      var public :- PublicCount(cands);
      Ok((if n < expected then [Failure(TooFewAnswerCandidates)] else [])
        + (if public < expected then [Failure(TooFewPublicCandidates)] else []))
  }

  /** Lines 207-225 of `analyze`, after `expand`: the call is counted under
      its direction (with none, the call of the missing `warning` method
      aborts), then the failure rules apply. */
  function Judge(x: Expansion): (r: Result<seq<Note>>)
    ensures x.direction.None? ==> r == Err(NoWarningMethod)
    ensures x.direction.Some? ==>
      (r.Err? <==> x.answerCandidates != [] && PublicCount(x.answerCandidates).Err?)
    ensures r.Ok? ==>
      && 1 <= |r.value| <= 3
      && r.value[0] == Stat(x.direction.value)
      && forall k :: 1 <= k < |r.value| ==> r.value[k].Failure?
    ensures r.Ok? ==> r.value[1..] == Rules(x.answerCandidates, x.accepted).value
  {
    if x.direction.None? then Err(NoWarningMethod)
    else
      var rules :- Rules(x.answerCandidates, x.accepted);
      Ok([Stat(x.direction.value)] + rules)
  }

  /** Lines 205-225 of `analyze`, once the offer and answer are known to be
      there: the entries the expanded call makes, or the fault that aborts. */
  function Verdict(ex: Exchange, d0: Option<Sdp.Direction>): (r: Result<seq<Note>>)
    requires ex.offer.Some? && ex.answer.Some?
    ensures Expanded(ex, d0).Err? ==> r == Err(Expanded(ex, d0).fault)
    ensures Expanded(ex, d0).Ok? && Expanded(ex, d0).value.direction.None? ==> r == Err(NoWarningMethod)
    ensures r.Ok? <==> Expanded(ex, d0).Ok? && Judge(Expanded(ex, d0).value).Ok?
    ensures r.Ok? ==> r.value == Judge(Expanded(ex, d0).value).value
    // the rules after `expand` count the call once and only fail; they never warn
    ensures r.Ok? ==>
      && r.value[0].Stat?
      && (forall k :: 1 <= k < |r.value| ==> r.value[k].Failure?)
      && (forall k :: 0 <= k < |r.value| ==> !r.value[k].Warning?)
      && WarningsIn(r.value) == []
  {
    var x :- Expanded(ex, d0);
    var r := Judge(x);
    if r.Ok? then
      NoWarningsIn(r.value);
      r
    else r
  }

  /** Line 204-205 of `analyze`: an answer more than five seconds after the
      offer is warned about. */
  function LagNotes(ex: Exchange): seq<Note>
    requires ex.offer.Some? && ex.answer.Some?
  {
    if ex.answer.value.time - ex.offer.value.time > 5 then [Warning(LongLagTime)] else []
  }

  /** What `analyze` records for a call holding `ex` and direction `d0`, in
      order, or the fault that aborts the run. */
  function Classify(ex: Exchange, d0: Option<Sdp.Direction>): (r: Result<seq<Note>>)
    ensures ex.offer.None? ==> r == Ok([Failure(NoOffer)])
    ensures ex.offer.Some? && ex.answer.None? ==> r == Ok([Failure(NoAnswer)])
    ensures r.Ok? && ex.offer.Some? && ex.answer.Some? ==>
      (Warning(LongLagTime) in r.value <==> ex.answer.value.time - ex.offer.value.time > 5)
  {
    if ex.offer.None? then Ok([Failure(NoOffer)])
    else if ex.answer.None? then Ok([Failure(NoAnswer)])
    else
      var lag := LagNotes(ex);
      var notes :- Verdict(ex, d0);
      assert Warning(LongLagTime) !in notes;
      Ok(lag + notes)
  }

  /** With no direction carried over from an earlier expansion, the answer
      settles on a direction exactly when one of its media sections has a
      direction line; without one the run aborts at the call of the missing
      `warning` method (analyze.py:210), however the candidates look. */
  lemma NoDirectionAborts(ex: Exchange)
    requires ex.offer.Some? && ex.answer.Some? && Expanded(ex, None).Ok?
    ensures var secs := Sdp.Segments(ex.answer.value.lines);
      Expanded(ex, None).value.direction.None? <==> Sdp.NoDirectionLines(secs)
    ensures Sdp.NoDirectionLines(Sdp.Segments(ex.answer.value.lines)) ==> Classify(ex, None) == Err(NoWarningMethod)
  {
    Sdp.NoDirectionIff(Sdp.Segments(ex.answer.value.lines));
  }

  /** A single failure files the call under that reason alone and leaves it
      failed with it, without a warning. */
  lemma OneFailure(t: Tally, id: CallId, f: Option<Reason>, reason: Reason)
    ensures Record(t, id, [Failure(reason)]) == Step(t, id, Failure(reason))
    ensures LastFailure(f, [Failure(reason)]) == Some(reason)
    ensures WarningsIn([Failure(reason)]) == []
  {
    RecordSnoc(t, id, f, [], Failure(reason));
    assert [] + [Failure(reason)] == [Failure(reason)];
  }

  /** Too few answer candidates implies too few public ones, since no more
      candidates are public than there are: the call is filed under both
      reasons and left failed with the second. */
  lemma TooFewAnswerThenTooFewPublic(ex: Exchange, d0: Option<Sdp.Direction>, t: Tally, id: CallId, f: Option<Reason>)
    requires Classify(ex, d0).Ok? && Failure(TooFewAnswerCandidates) in Classify(ex, d0).value
    ensures var notes := Classify(ex, d0).value;
      && notes[|notes| - 1] == Failure(TooFewPublicCandidates)
      && LastFailure(f, notes) == Some(TooFewPublicCandidates)
      && id in Listed(Record(t, id, notes).failures, TooFewAnswerCandidates)
      && id in Listed(Record(t, id, notes).failures, TooFewPublicCandidates)
  {
    var notes := Classify(ex, d0).value;
    var x := Expanded(ex, d0).value;
    var rules := Rules(x.answerCandidates, x.accepted).value;
    var pre := LagNotes(ex) + [Stat(x.direction.value)];
    assert notes == pre + rules;
    assert Failure(TooFewAnswerCandidates) in rules;
    TooFewAnswerRules(x.answerCandidates, x.accepted);
    EndsWithBothFailures(t, id, f, pre, notes);
  }

  /** When the rules find too few answer candidates they also find too few
      public ones, and nothing else. */
  lemma TooFewAnswerRules(cands: seq<Candidates.Candidate>, accepted: nat)
    requires Rules(cands, accepted).Ok? && Failure(TooFewAnswerCandidates) in Rules(cands, accepted).value
    ensures Rules(cands, accepted).value == [Failure(TooFewAnswerCandidates), Failure(TooFewPublicCandidates)]
  {
    assert PublicCount(cands).value <= |cands| < 2 * accepted;
  }

  /** Entries ending with both candidate failures list the call under both
      and leave it failed with the second. */
  lemma EndsWithBothFailures(t: Tally, id: CallId, f: Option<Reason>, pre: seq<Note>, notes: seq<Note>)
    requires notes == pre + [Failure(TooFewAnswerCandidates), Failure(TooFewPublicCandidates)]
    ensures notes[|notes| - 1] == Failure(TooFewPublicCandidates)
    ensures LastFailure(f, notes) == Some(TooFewPublicCandidates)
    ensures id in Listed(Record(t, id, notes).failures, TooFewAnswerCandidates)
    ensures id in Listed(Record(t, id, notes).failures, TooFewPublicCandidates)
  {
    assert notes == notes[..|notes| - 1] + [notes[|notes| - 1]];
    assert notes[|notes| - 2] == Failure(TooFewAnswerCandidates);
    RecordFiles(t, id, notes, Failure(TooFewAnswerCandidates));
    RecordFiles(t, id, notes, Failure(TooFewPublicCandidates));
  }

  /** Once offer and answer are there, the entries of `analyze` are the lag
      warning followed by those of `Verdict`: filing them is filing the
      warning and then the verdict, the verdict alone decides the failure,
      and the warning is the only one. */
  lemma ClassifySplits(ex: Exchange, d0: Option<Sdp.Direction>, t: Tally, id: CallId, f: Option<Reason>)
    requires ex.offer.Some? && ex.answer.Some?
    ensures var lag, v, c := LagNotes(ex), Verdict(ex, d0), Classify(ex, d0);
      && (c.Ok? <==> v.Ok?)
      && (c.Err? ==> c.fault == v.fault)
      && (c.Ok? ==>
            && Record(t, id, c.value) == Record(Record(t, id, lag), id, v.value)
            && LastFailure(f, c.value) == LastFailure(f, v.value)
            && WarningsIn(c.value) == WarningsIn(lag))
  {
    var lag, v := LagNotes(ex), Verdict(ex, d0);
    if v.Ok? {
      assert Classify(ex, d0).value == lag + v.value;
      assert WarningsIn(v.value) == [];
      RecordConcat(t, id, lag, v.value);
      LastFailureConcat(f, lag, v.value);
      WarningsConcat(lag, v.value);
      assert LastFailure(f, lag) == f by {
        if lag != [] {
          RecordSnoc(t, id, f, [], Warning(LongLagTime));
          assert [] + lag == lag;
        }
      }
      assert WarningsIn(lag) + [] == WarningsIn(lag);
    }
  }

  // ---------------------------------------------------------------------------
  // The call

  class Call {
    const callid: CallId
    var failed: Option<Reason>
    var warnings: seq<Reason>
    var offer: Option<Event>
    var answer: Option<Event>
    var direction: Option<Sdp.Direction>
    var candidates: seq<Event>
    var expandedOffer: seq<seq<string>>
    var expandedAnswer: seq<seq<string>>
    var offerCandidates: seq<Candidates.Candidate>
    var answerCandidates: seq<Candidates.Candidate>
    var accepted: nat

    /** A call with nothing delivered, not failed and without warnings. */
    constructor (callid: CallId)
      ensures this.callid == callid && Exchanged() == NoExchange
      ensures failed == None && warnings == [] && direction == None
    {
      this.callid := callid;
      failed := None;
      warnings := [];
      offer := None;
      answer := None;
      direction := None;
      candidates := [];
    }

    /** What the call's rows have delivered so far. */
    function Exchanged(): Exchange
      reads this`offer, this`answer, this`candidates
    {
      Exchange(offer, answer, candidates)
    }

    /** The fields `expand` sets. */
    function ExpandedFields(): Expansion
      reads this`expandedOffer, this`expandedAnswer, this`offerCandidates,
        this`answerCandidates, this`accepted, this`direction
    {
      Expansion(expandedOffer, expandedAnswer, offerCandidates, answerCandidates, accepted, direction)
    }

    method AddOffer(ev: Event) returns (o: Outcome)
      modifies this`offer
      ensures o.Fail? <==> old(offer).Some?
      ensures o.Fail? ==> o.fault == MultipleOffers && offer == old(offer)
      ensures o.Pass? ==> offer == Some(ev)
    {
      if offer.Some? {
        return Fail(MultipleOffers);
      }
      offer := Some(ev);
      return Pass;
    }

    method AddAnswer(ev: Event) returns (o: Outcome)
      modifies this`answer
      ensures o.Fail? <==> old(answer).Some?
      ensures o.Fail? ==> o.fault == MultipleAnswers && answer == old(answer)
      ensures o.Pass? ==> answer == Some(ev)
    {
      if answer.Some? {
        return Fail(MultipleAnswers);
      }
      answer := Some(ev);
      return Pass;
    }

    method AddCandidate(ev: Event)
      modifies this`candidates
      ensures candidates == old(candidates) + [ev]
    {
      candidates := candidates + [ev];
    }

    /** `add_value`: the call ingests one row as `Added` says; on a fault
        nothing has changed. */
    method AddValue(v: Value, dateOf: DateParser) returns (o: Outcome)
      modifies this`offer, this`answer, this`candidates
      ensures var r := Added(old(Exchanged()), v, dateOf);
        && (o.Pass? <==> r.Ok?)
        && (r.Ok? ==> Exchanged() == r.value)
        && (r.Err? ==> o.fault == r.fault && Exchanged() == old(Exchanged()))
    {
      if "date" !in v.fields {
        return Fail(MissingColumn("date"));
      }
      var time := dateOf(v.fields["date"]);
      if time.None? {
        return Fail(MalformedDate(v.fields["date"]));
      }
      var ev := Event(v.sdp, time.value);
      if "type" !in v.fields {
        return Fail(MissingColumn("type"));
      }
      var kind := v.fields["type"];
      o := Pass;
      if kind == "offer" {
        o := AddOffer(ev);
        if o.Fail? {
          return;
        }
      }
      if kind == "answer" {
        o := AddAnswer(ev);
        if o.Fail? {
          return;
        }
      }
      if kind == "candidate" {
        AddCandidate(ev);
      }
    }

    /** `expand_candidates`: the offer's candidate lines, then the answer's,
        then one candidate per trickled event, as `ParseAll` and
        `AnswerCandidates` say; the first line that does not parse aborts. */
    method ExpandCandidates() returns (o: Outcome)
      requires offer.Some? && answer.Some?
      modifies this`offerCandidates, this`answerCandidates
      ensures var oc := ParseAll(offer.value.time, offer.value.lines);
        var ac := AnswerCandidates(answer.value, candidates);
        && (o.Pass? <==> oc.Ok? && ac.Ok?)
        && (o.Fail? ==> o.fault == if oc.Err? then oc.fault else ac.fault)
        && (o.Pass? ==> offerCandidates == oc.value && answerCandidates == ac.value)
    {
      var oc := CollectCandidates(offer.value.time, offer.value.lines);
      if oc.Err? {
        return Fail(oc.fault);
      }
      offerCandidates := oc.value;
      var body := CollectCandidates(answer.value.time, answer.value.lines);
      if body.Err? {
        return Fail(body.fault);
      }
      var more := CollectTrickled(candidates);
      if more.Err? {
        return Fail(more.fault);
      }
      answerCandidates := body.value + more.value;
      return Pass;
    }

    /** `count_accepted_m_lines`: counts the answer sections with an
        accepting direction line and leaves `direction` as the scan of every
        section before its first accepting line sets it. */
    method CountAcceptedMLines()
      modifies this`accepted, this`direction
      ensures accepted == Sdp.AcceptedCount(expandedAnswer)
      ensures direction == Sdp.DirectionAfter(old(direction), expandedAnswer)
    {
      accepted := 0;
      ghost var d0 := direction;
      for k := 0 to |expandedAnswer|
        invariant accepted == Sdp.AcceptedCount(expandedAnswer[..k])
        invariant direction == Sdp.DirectionAfter(d0, expandedAnswer[..k])
      {
        var ml := expandedAnswer[k];
        ghost var dk := direction;
        ghost var before := accepted;
        var seenAccepted := false;
        for j := 0 to |ml|
          invariant (direction, seenAccepted) == Sdp.ScanSection(dk, ml[..j])
          invariant accepted == before + if seenAccepted then 1 else 0
        {
          assert ml[..j + 1][..j] == ml[..j];
          var l := ml[j];
          if !seenAccepted {
            var m := Sdp.DirectionOf(l);
            if m.Some? {
              direction := m;
              if m.value != Sdp.Inactive {
                seenAccepted := true;
                accepted := accepted + 1;
              }
            }
          }
        }
        assert ml[..|ml|] == ml;
        Sdp.ScanSectionMeaning(dk, ml);
        assert expandedAnswer[..k + 1][..k] == expandedAnswer[..k];
      }
      assert expandedAnswer[..|expandedAnswer|] == expandedAnswer;
    }

    /** `expand`: the call's expansion fields become `Expanded` of what it
        holds, or the run aborts with the same fault. */
    method Expand() returns (o: Outcome)
      requires offer.Some? && answer.Some?
      modifies this`expandedOffer, this`expandedAnswer, this`offerCandidates,
        this`answerCandidates, this`accepted, this`direction
      ensures var x := Expanded(old(Exchanged()), old(direction));
        && (o.Pass? <==> x.Ok?)
        && (o.Fail? ==> o.fault == x.fault)
        && (o.Pass? ==> ExpandedFields() == x.value)
    {
      ExpandedCases(Exchanged(), direction);
      expandedOffer := Sdp.BreakUpByMLines(offer.value.lines);
      expandedAnswer := Sdp.BreakUpByMLines(answer.value.lines);
      o := ExpandCandidates();
      if o.Fail? {
        return;
      }
      CountAcceptedMLines();
    }

    /** `expected_components`, once `count_accepted_m_lines` has set
        `accepted_`: two components (RTP and RTCP) per accepted media section
        of the answer, so at most two per section. */
    function ExpectedComponents(): (r: nat)
      requires accepted == Sdp.AcceptedCount(expandedAnswer)
      reads this`accepted, this`expandedAnswer
      ensures r == 2 * Sdp.AcceptedCount(expandedAnswer)
      ensures r <= 2 * |expandedAnswer|
    {
      accepted * 2
    }

    /** `failed`: files the call under `reason` and marks it failed with it. */
    method Failed(t: Tally, reason: Reason) returns (t': Tally)
      modifies this`failed
      ensures t' == Step(t, callid, Failure(reason)) && failed == Some(reason)
    {
      t' := t.(failures := Append(t.failures, reason, callid));
      failed := Some(reason);
    }

    /** `warn`: files the call under `reason` and adds it to its warnings. */
    method Warn(t: Tally, reason: Reason) returns (t': Tally)
      modifies this`warnings
      ensures t' == Step(t, callid, Warning(reason)) && warnings == old(warnings) + [reason]
    {
      t' := t.(warnings := Append(t.warnings, reason, callid));
      warnings := warnings + [reason];
    }

    /** `stats`: counts the call under its direction. */
    method Stats(t: Tally, d: Sdp.Direction) returns (t': Tally)
      ensures t' == Step(t, callid, Stat(d))
    {
      t' := t.(stats := Append(t.stats, d, callid));
    }

    /** Lines 207-225 of `analyze`, once the call is expanded: it files the
        entries `Judge` lists after those already filed. */
    method Conclude(tt: Tally) returns (r: Result<Tally>)
      requires accepted == Sdp.AcceptedCount(expandedAnswer)
      modifies this`failed
      ensures var j := Judge(ExpandedFields());
        && (r.Ok? <==> j.Ok?)
        && (j.Err? ==> r.fault == j.fault)
        && (j.Ok? ==> r.value == Record(tt, callid, j.value) && failed == LastFailure(old(failed), j.value))
    {
      if direction.None? {
        return Err(NoWarningMethod);
      }
      var d := direction.value;
      var t1 := Stats(tt, d);
      ghost var f0 := failed;
      RecordSnoc(tt, callid, f0, [], Stat(d));
      assert [] + [Stat(d)] == [Stat(d)];
      r := ApplyRules(t1);
      if r.Ok? {
        RecordConcat(tt, callid, [Stat(d)], Rules(answerCandidates, accepted).value);
        LastFailureConcat(f0, [Stat(d)], Rules(answerCandidates, accepted).value);
      }
    }

    /** Lines 211-225 of `analyze`: the call files the failures `Rules`
        lists after those already filed. */
    method ApplyRules(tt: Tally) returns (r: Result<Tally>)
      requires accepted == Sdp.AcceptedCount(expandedAnswer)
      modifies this`failed
      ensures var j := Rules(answerCandidates, accepted);
        && (r.Ok? <==> j.Ok?)
        && (j.Err? ==> r.fault == j.fault)
        && (j.Ok? ==> r.value == Record(tt, callid, j.value) && failed == LastFailure(old(failed), j.value))
    {
      ghost var f0 := failed;
      if |answerCandidates| == 0 {
        var t1 := Failed(tt, NoAnswerCandidates);
        RecordSnoc(tt, callid, f0, [], Failure(NoAnswerCandidates));
        assert [] + [Failure(NoAnswerCandidates)] == [Failure(NoAnswerCandidates)];
        return Ok(t1);
      }
      var t1 := tt;
      ghost var tooFew: seq<Note> := [];
      if |answerCandidates| < ExpectedComponents() {
        t1 := Failed(t1, TooFewAnswerCandidates);
        RecordSnoc(tt, callid, f0, [], Failure(TooFewAnswerCandidates));
        tooFew := [Failure(TooFewAnswerCandidates)];
        assert [] + tooFew == tooFew;
      }
      assert t1 == Record(tt, callid, tooFew) && failed == LastFailure(f0, tooFew);
      var public :- CountPublic(answerCandidates);
      ghost var tooFewPublic: seq<Note> := [];
      if public < ExpectedComponents() {
        t1 := Failed(t1, TooFewPublicCandidates);
        RecordSnoc(tt, callid, f0, tooFew, Failure(TooFewPublicCandidates));
        tooFewPublic := [Failure(TooFewPublicCandidates)];
      } else {
        assert tooFew + tooFewPublic == tooFew;
      }
      assert Rules(answerCandidates, accepted) == Ok(tooFew + tooFewPublic);
      return Ok(t1);
    }

    /** Lines 205-225 of `analyze`: the call is expanded, then files the
        entries `Verdict` lists after those already filed. */
    method Decide(tt: Tally) returns (r: Result<Tally>)
      requires offer.Some? && answer.Some?
      modifies this`failed, this`expandedOffer, this`expandedAnswer,
        this`offerCandidates, this`answerCandidates, this`accepted, this`direction
      ensures var v := Verdict(old(Exchanged()), old(direction));
        && (r.Ok? <==> v.Ok?)
        && (v.Err? ==> r.fault == v.fault)
        && (v.Ok? ==> r.value == Record(tt, callid, v.value) && failed == LastFailure(old(failed), v.value))
        && (v.Ok? ==> ExpandedFields() == Expanded(old(Exchanged()), old(direction)).value)
    {
      ghost var d0, ex0 := direction, Exchanged();
      var o := Expand();
      if o.Fail? {
        assert Verdict(ex0, d0) == Err(o.fault);
        return Err(o.fault);
      }
      ghost var x := ExpandedFields();
      assert Expanded(ex0, d0) == Ok(x);
      r := Conclude(tt);
    }

    /** `analyze`: the call files the entries `Classify` lists, in order, and
        its `failed` and `warnings` fields follow them; a fault aborts. */
    method Analyze(t: Tally) returns (r: Result<Tally>)
      modifies this`failed, this`warnings, this`expandedOffer, this`expandedAnswer,
        this`offerCandidates, this`answerCandidates, this`accepted, this`direction
      ensures var c := Classify(old(Exchanged()), old(direction));
        && (r.Ok? <==> c.Ok?)
        && (c.Err? ==> r.fault == c.fault)
        && (c.Ok? ==> r.value == Record(t, callid, c.value)
                      && failed == LastFailure(old(failed), c.value)
                      && warnings == old(warnings) + WarningsIn(c.value))
      ensures old(offer).None? || old(answer).None? ==> ExpandedFields() == old(ExpandedFields())
      ensures old(offer).Some? && old(answer).Some? && r.Ok? ==>
        ExpandedFields() == Expanded(old(Exchanged()), old(direction)).value
    {
      if offer.None? {
        var t1 := Failed(t, NoOffer);
        OneFailure(t, callid, failed, NoOffer);
        return Ok(t1);
      }
      if answer.None? {
        var t1 := Failed(t, NoAnswer);
        OneFailure(t, callid, failed, NoAnswer);
        return Ok(t1);
      }
      r := Proceed(t);
    }

    /** Lines 204-225 of `analyze`, once the offer and answer are known to be
        there: a late answer is warned about, then the call is expanded and
        judged. */
    method Proceed(t: Tally) returns (r: Result<Tally>)
      requires offer.Some? && answer.Some?
      modifies this`failed, this`warnings, this`expandedOffer, this`expandedAnswer,
        this`offerCandidates, this`answerCandidates, this`accepted, this`direction
      ensures var c := Classify(old(Exchanged()), old(direction));
        && (r.Ok? <==> c.Ok?)
        && (c.Err? ==> r.fault == c.fault)
        && (c.Ok? ==> r.value == Record(t, callid, c.value)
                      && failed == LastFailure(old(failed), c.value)
                      && warnings == old(warnings) + WarningsIn(c.value))
      ensures r.Ok? ==> ExpandedFields() == Expanded(old(Exchanged()), old(direction)).value
    {
      ghost var f0, ex0 := failed, Exchanged();
      var tt := WarnIfLate(t);
      r := Decide(tt);
      ClassifySplits(ex0, old(direction), t, callid, f0);
    }

    /** Lines 204-205 of `analyze`: files the lag warning of `LagNotes`, if
        any. */
    method WarnIfLate(t: Tally) returns (t': Tally)
      requires offer.Some? && answer.Some?
      modifies this`warnings
      ensures t' == Record(t, callid, LagNotes(Exchanged()))
      ensures warnings == old(warnings) + WarningsIn(LagNotes(Exchanged()))
    {
      t' := t;
      if answer.value.time - offer.value.time > 5 {
        t' := Warn(t, LongLagTime);
        RecordSnoc(t, callid, None, [], Warning(LongLagTime));
        assert [] + [Warning(LongLagTime)] == [Warning(LongLagTime)];
      }
    }
  }

  // ---------------------------------------------------------------------------
  // Analysing every call

  /** A call as the analysis pass finds it: its id, what its rows delivered
      and the direction it holds. */
  datatype Job = Job(callid: CallId, exchange: Exchange, direction: Option<Sdp.Direction>)

  /** The tallies after analysing the calls `jobs` in order, or the fault of
      the first call that aborts the run. */
  function ClassifyAll(t: Tally, jobs: seq<Job>): Result<Tally>
    decreases |jobs|
  {
    if jobs == [] then Ok(t)
    else
      var before :- ClassifyAll(t, jobs[..|jobs| - 1]);
      var j := jobs[|jobs| - 1];
      var notes :- Classify(j.exchange, j.direction);
      Ok(Record(before, j.callid, notes))
  }

  /** Every analysis that does not abort files the call at least once: under
      a failure when the offer or answer is missing, else under its
      direction. */
  lemma ClassifyFiles(ex: Exchange, d0: Option<Sdp.Direction>)
    requires Classify(ex, d0).Ok?
    ensures |Classify(ex, d0).value| >= 1
    ensures var n := Classify(ex, d0).value[|Classify(ex, d0).value| - 1];
      ex.offer.None? || ex.answer.None? ==> n.Failure?
  {
    if ex.offer.Some? && ex.answer.Some? {
      assert Classify(ex, d0).value == LagNotes(ex) + Verdict(ex, d0).value;
    }
  }

  /** The call `id` is listed in `t` under the reason of `n`. */
  predicate Filed(t: Tally, id: CallId, n: Note)
  {
    match n
    case Failure(reason) => id in Listed(t.failures, reason)
    case Warning(reason) => id in Listed(t.warnings, reason)
    case Stat(d) => id in Listed(t.stats, d)
  }

  /** After a pass that does not abort, every analysed call is filed under
      the first entry its own analysis makes. */
  lemma {:induction false} ClassifyAllFilesEach(t: Tally, jobs: seq<Job>, k: nat)
    requires ClassifyAll(t, jobs).Ok? && k < |jobs|
    ensures Classify(jobs[k].exchange, jobs[k].direction).Ok?
    ensures |Classify(jobs[k].exchange, jobs[k].direction).value| >= 1
    ensures Filed(ClassifyAll(t, jobs).value, jobs[k].callid, Classify(jobs[k].exchange, jobs[k].direction).value[0])
    decreases |jobs|
  {
    var init, j := jobs[..|jobs| - 1], jobs[|jobs| - 1];
    var before := ClassifyAll(t, init).value;
    var notes := Classify(j.exchange, j.direction).value;
    assert ClassifyAll(t, jobs).value == Record(before, j.callid, notes);
    if k == |jobs| - 1 {
      ClassifyFiles(j.exchange, j.direction);
      RecordFiles(before, j.callid, notes, notes[0]);
    } else {
      ClassifyAllFilesEach(t, init, k);
      assert init[k] == jobs[k];
      FiledStays(before, j.callid, notes, jobs[k].callid, Classify(jobs[k].exchange, jobs[k].direction).value[0]);
    }
  }

  /** Recording more entries keeps every call where it was filed. */
  lemma FiledStays(t: Tally, id: CallId, notes: seq<Note>, other: CallId, n: Note)
    requires Filed(t, other, n)
    ensures Filed(Record(t, id, notes), other, n)
  {
    RecordGrows(t, id, notes);
    var t' := Record(t, id, notes);
    match n
    case Failure(reason) =>
      assert Listed(t.failures, reason) <= Listed(t'.failures, reason);
    case Warning(reason) =>
      assert Listed(t.warnings, reason) <= Listed(t'.warnings, reason);
    case Stat(d) =>
      assert Listed(t.stats, d) <= Listed(t'.stats, d);
  }

  /** The calls as the analysis pass finds them. */
  function Jobs(calls: seq<Call>): seq<Job>
    reads calls
  {
    seq(|calls|, i requires 0 <= i < |calls| reads calls =>
      Job(calls[i].callid, calls[i].Exchanged(), calls[i].direction))
  }

  /** The fields of a call that analysing it may change. */
  datatype Snapshot = Snapshot(failed: Option<Reason>, warnings: seq<Reason>, expansion: Expansion)

  function SnapshotOf(c: Call): Snapshot
    reads c
  {
    Snapshot(c.failed, c.warnings, c.ExpandedFields())
  }

  /** The calls' changeable fields, one snapshot per call. */
  function Snapshots(calls: seq<Call>): seq<Snapshot>
    reads calls
  {
    seq(|calls|, i requires 0 <= i < |calls| reads calls => SnapshotOf(calls[i]))
  }

  /** `c` is still as `job` and `s0` describe it: not analysed yet. */
  predicate Waiting(c: Call, job: Job, s0: Snapshot)
    reads c
  {
    c.callid == job.callid && c.Exchanged() == job.exchange && c.direction == job.direction
    && SnapshotOf(c) == s0
  }

  /** What analysing the call `job` describes leaves in `c`, whose fields
      were `s0` before: what its rows delivered (offer, answer, trickled
      candidates) stays as it was, `failed` and `warnings` follow the entries
      `Classify` lists, and the expansion fields are those of `Expanded`
      when the call had an offer and an answer, and stay as they were
      otherwise. */
  predicate Settled(c: Call, job: Job, s0: Snapshot)
    reads c
  {
    var ex := job.exchange;
    && c.Exchanged() == ex
    && Classify(ex, job.direction).Ok?
    && c.failed == LastFailure(s0.failed, Classify(ex, job.direction).value)
    && c.warnings == s0.warnings + WarningsIn(Classify(ex, job.direction).value)
    && (ex.offer.Some? && ex.answer.Some? ==>
          Expanded(ex, job.direction).Ok? && c.ExpandedFields() == Expanded(ex, job.direction).value)
    && (ex.offer.None? || ex.answer.None? ==> c.ExpandedFields() == s0.expansion)
  }

  /** The loop over `CALLS` (analyze.py:266-267): each call is analysed
      once, in turn, filing its entries in the tallies passed along; after
      a pass that does not abort, every call is settled as its own analysis
      says. */
  method AnalyzeAll(calls: seq<Call>, t: Tally) returns (r: Result<Tally>)
    requires forall i, j :: 0 <= i < j < |calls| ==> calls[i] != calls[j]
    modifies calls
    ensures r == ClassifyAll(t, old(Jobs(calls)))
    ensures r.Ok? ==> forall k :: 0 <= k < |calls| ==> Settled(calls[k], old(Jobs(calls))[k], old(Snapshots(calls))[k])
  {
    ghost var jobs, snaps := Jobs(calls), Snapshots(calls);
    var tt := t;
    for i := 0 to |calls|
      invariant ClassifyAll(t, jobs[..i]) == Ok(tt)
      invariant forall k :: i <= k < |calls| ==> Waiting(calls[k], jobs[k], snaps[k])
      invariant forall k :: 0 <= k < i ==> Settled(calls[k], jobs[k], snaps[k])
    {
      ClassifyAllStep(t, jobs, i, tt);
      var next := AnalyzeJob(calls[i], jobs[i], snaps[i], tt);
      if next.Err? {
        ClassifyAllPrefixErr(t, jobs, i + 1);
        return next;
      }
      tt := next.value;
      forall k | i < k < |calls|
        ensures Waiting(calls[k], jobs[k], snaps[k])
      {
        assert calls[k] != calls[i];
      }
      forall k | 0 <= k < i
        ensures Settled(calls[k], jobs[k], snaps[k])
      {
        assert calls[k] != calls[i];
      }
    }
    assert jobs[..|calls|] == jobs;
    return Ok(tt);
  }

  /** One turn of the pass: the call `job` describes is analysed over the
      tallies `tt` and settled as its analysis says. */
  method AnalyzeJob(c: Call, ghost job: Job, ghost s0: Snapshot, tt: Tally) returns (r: Result<Tally>)
    requires Waiting(c, job, s0)
    modifies c
    ensures var k := Classify(job.exchange, job.direction);
      r == if k.Err? then Err(k.fault) else Ok(Record(tt, job.callid, k.value))
    ensures r.Ok? ==> Settled(c, job, s0)
  {
    r := c.Analyze(tt);
  }

  /** One more call is analysed over the tallies of the calls before it. */
  lemma ClassifyAllStep(t: Tally, jobs: seq<Job>, i: nat, tt: Tally)
    requires i < |jobs| && ClassifyAll(t, jobs[..i]) == Ok(tt)
    ensures var c := Classify(jobs[i].exchange, jobs[i].direction);
      ClassifyAll(t, jobs[..i + 1]) == if c.Err? then Err(c.fault) else Ok(Record(tt, jobs[i].callid, c.value))
  {
    assert jobs[..i + 1][..i] == jobs[..i];
  }

  lemma {:induction false} ClassifyAllPrefixErr(t: Tally, jobs: seq<Job>, k: nat)
    requires k <= |jobs| && ClassifyAll(t, jobs[..k]).Err?
    ensures ClassifyAll(t, jobs) == ClassifyAll(t, jobs[..k])
    decreases |jobs|
  {
    if k < |jobs| {
      var init := jobs[..|jobs| - 1];
      assert init[..k] == jobs[..k];
      ClassifyAllPrefixErr(t, init, k);
    } else {
      assert jobs[..k] == jobs;
    }
  }
}
