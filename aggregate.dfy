/** The three tallies of the analyser (`FAILURES_BY_REASON`,
    `WARNINGS_BY_REASON` and `STATS_BY_REASON`, analyze.py:11-13), held as
    one value that each classification step takes and gives back instead of
    as global dictionaries.  A call is recorded under a reason by its id;
    the analyser appends the call object itself. */
module Tallies {
  import opened Errors
  import Sdp

  /** The reasons `analyze` files a call under. */
  datatype Reason =
    | NoOffer                  // 'no_offer'
    | NoAnswer                 // 'no_answer'
    | LongLagTime              // 'long_lag_time'
    | NoAnswerCandidates       // 'no_answer_candidates'
    | TooFewAnswerCandidates   // 'too_few_answer_candidates'
    | TooFewPublicCandidates   // 'too_few_public_candidates'

  type CallId = string

  /** One entry a classification makes: a failure, a warning, or a count
      of the call under the direction its answer settled on. */
  datatype Note = Failure(reason: Reason) | Warning(reason: Reason) | Stat(direction: Sdp.Direction)

  /** The calls recorded under each reason, in the order they were recorded. */
  datatype Tally = Tally(
    failures: map<Reason, seq<CallId>>,
    warnings: map<Reason, seq<CallId>>,
    stats: map<Sdp.Direction, seq<CallId>>)

  /** The tallies before any call is analysed. */
  const Empty: Tally := Tally(map[], map[], map[])

  /** The calls under `k`, none when the key was never created. */
  function Listed<K>(m: map<K, seq<CallId>>, k: K): seq<CallId>
  {
    if k in m then m[k] else []
  }

  /** Creating the list on first use, then appending `id` to it. */
  function Append<K(!new)>(m: map<K, seq<CallId>>, k: K, id: CallId): (r: map<K, seq<CallId>>)
    ensures r.Keys == m.Keys + {k}
    ensures Listed(r, k) == Listed(m, k) + [id]
    ensures forall k' :: k' != k ==> Listed(r, k') == Listed(m, k')
  {
    m[k := Listed(m, k) + [id]]
  }

  /** The tallies after the call `id` makes the entry `n`. */
  function Step(t: Tally, id: CallId, n: Note): Tally
  {
    match n
    case Failure(r) => t.(failures := Append(t.failures, r, id))
    case Warning(r) => t.(warnings := Append(t.warnings, r, id))
    case Stat(d) => t.(stats := Append(t.stats, d, id))
  }

  /** The tallies after the call `id` makes the entries `notes` in order. */
  function Record(t: Tally, id: CallId, notes: seq<Note>): Tally
    decreases |notes|
  {
    if notes == [] then t
    else Step(Record(t, id, notes[..|notes| - 1]), id, notes[|notes| - 1])
  }

  /** One entry only appends, and files the call under its own key. */
  lemma StepAppends(t: Tally, id: CallId, n: Note)
    ensures forall r :: Listed(t.failures, r) <= Listed(Step(t, id, n).failures, r)
    ensures forall r :: Listed(t.warnings, r) <= Listed(Step(t, id, n).warnings, r)
    ensures forall d :: Listed(t.stats, d) <= Listed(Step(t, id, n).stats, d)
    ensures n.Failure? ==> id in Listed(Step(t, id, n).failures, n.reason)
    ensures n.Warning? ==> id in Listed(Step(t, id, n).warnings, n.reason)
    ensures n.Stat? ==> id in Listed(Step(t, id, n).stats, n.direction)
  {
  }

  /** Recording only appends: every list keeps what it held. */
  lemma {:induction false} RecordGrows(t: Tally, id: CallId, notes: seq<Note>)
    ensures forall r :: Listed(t.failures, r) <= Listed(Record(t, id, notes).failures, r)
    ensures forall r :: Listed(t.warnings, r) <= Listed(Record(t, id, notes).warnings, r)
    ensures forall d :: Listed(t.stats, d) <= Listed(Record(t, id, notes).stats, d)
    decreases |notes|
  {
    if notes != [] {
      var init := notes[..|notes| - 1];
      RecordGrows(t, id, init);
      StepAppends(Record(t, id, init), id, notes[|notes| - 1]);
    }
  }

  /** The call appears under every reason it was filed under. */
  lemma {:induction false} RecordFiles(t: Tally, id: CallId, notes: seq<Note>, n: Note)
    requires n in notes
    ensures n.Failure? ==> id in Listed(Record(t, id, notes).failures, n.reason)
    ensures n.Warning? ==> id in Listed(Record(t, id, notes).warnings, n.reason)
    ensures n.Stat? ==> id in Listed(Record(t, id, notes).stats, n.direction)
    decreases |notes|
  {
    var init := notes[..|notes| - 1];
    var last := notes[|notes| - 1];
    var before := Record(t, id, init);
    StepAppends(before, id, last);
    if n != last {
      assert notes == init + [last];
      RecordFiles(t, id, init, n);
    }
  }

  /** The reason the call is left failed with: that of its last failure, or
      `f` when there is none (`failed_` is overwritten by each failure). */
  function LastFailure(f: Option<Reason>, notes: seq<Note>): Option<Reason>
    decreases |notes|
  {
    if notes == [] then f
    else if notes[|notes| - 1].Failure? then Some(notes[|notes| - 1].reason)
    else LastFailure(f, notes[..|notes| - 1])
  }

  /** The warnings among `notes`, in order (`warnings_` grows by each). */
  function WarningsIn(notes: seq<Note>): seq<Reason>
    decreases |notes|
  {
    if notes == [] then []
    else
      WarningsIn(notes[..|notes| - 1])
        + (if notes[|notes| - 1].Warning? then [notes[|notes| - 1].reason] else [])
  }

  /** One more entry extends the tallies, the failure and the warnings
      by that entry alone. */
  lemma RecordSnoc(t: Tally, id: CallId, f: Option<Reason>, notes: seq<Note>, n: Note)
    ensures Record(t, id, notes + [n]) == Step(Record(t, id, notes), id, n)
    ensures LastFailure(f, notes + [n]) == if n.Failure? then Some(n.reason) else LastFailure(f, notes)
    ensures WarningsIn(notes + [n]) == WarningsIn(notes) + if n.Warning? then [n.reason] else []
  {
    assert (notes + [n])[..|notes|] == notes;
  }

  /** Recording two runs of entries is recording their concatenation. */
  lemma {:induction false} RecordConcat(t: Tally, id: CallId, a: seq<Note>, b: seq<Note>)
    ensures Record(t, id, a + b) == Record(Record(t, id, a), id, b)
    decreases |b|
  {
    if b == [] {
      assert a + b == a;
    } else {
      var init, n := b[..|b| - 1], b[|b| - 1];
      assert (a + b)[..|a + b| - 1] == a + init;
      RecordConcat(t, id, a, init);
    }
  }

  /** The failure left after two runs of entries is that of the second run,
      starting from the failure the first leaves. */
  lemma {:induction false} LastFailureConcat(f: Option<Reason>, a: seq<Note>, b: seq<Note>)
    ensures LastFailure(f, a + b) == LastFailure(LastFailure(f, a), b)
    decreases |b|
  {
    if b == [] {
      assert a + b == a;
    } else {
      var init := b[..|b| - 1];
      assert (a + b)[..|a + b| - 1] == a + init;
      LastFailureConcat(f, a, init);
    }
  }

  /** The warnings of two runs of entries are those of each, in order. */
  lemma {:induction false} WarningsConcat(a: seq<Note>, b: seq<Note>)
    ensures WarningsIn(a + b) == WarningsIn(a) + WarningsIn(b)
    decreases |b|
  {
    if b == [] {
      assert a + b == a;
    } else {
      var init := b[..|b| - 1];
      assert (a + b)[..|a + b| - 1] == a + init;
      WarningsConcat(a, init);
    }
  }

  /** Entries without a warning add no warning. */
  lemma {:induction false} NoWarningsIn(notes: seq<Note>)
    requires forall k :: 0 <= k < |notes| ==> !notes[k].Warning?
    ensures WarningsIn(notes) == []
    decreases |notes|
  {
    if notes != [] {
      NoWarningsIn(notes[..|notes| - 1]);
    }
  }
}
