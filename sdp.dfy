/** The SDP side of the analyser: splitting a session description into its
    media sections at the `m=` lines of section 5.14 of RFC 4566
    (`break_up_by_m_lines`, analyze.py:140-148), and what the scan of
    `count_accepted_m_lines` (analyze.py:156-167) reads from the direction
    attributes `a=sendrecv`, `a=recvonly`, `a=sendonly` and `a=inactive` of
    section 6 of RFC 4566. */
module Sdp {
  import opened Errors
  import Text

  /** The four direction attributes the scan recognises. */
  datatype Direction = SendRecv | RecvOnly | SendOnly | Inactive

  /** `re.match("m=(\S+)", l)` succeeds: the line starts with `m=` followed
      by at least one non-whitespace character. */
  predicate IsMLine(l: string)
  {
    |l| >= 3 && l[0] == 'm' && l[1] == '=' && !Text.IsSpace(l[2])
  }

  /** `re.match("a=(sendrecv|recvonly|sendonly|inactive)", l)`: the
      attribute the line starts with, if any; whatever follows it is
      ignored. */
  function DirectionOf(l: string): Option<Direction>
  {
    if "a=sendrecv" <= l then Some(SendRecv)
    else if "a=recvonly" <= l then Some(RecvOnly)
    else if "a=sendonly" <= l then Some(SendOnly)
    else if "a=inactive" <= l then Some(Inactive)
    else None
  }

  // ---------------------------------------------------------------------------
  // break_up_by_m_lines

  /** The sections of `lines`, as the loop of `break_up_by_m_lines` leaves
      them after reading `lines`: an m-line opens a new section, any other
      line joins the open one, and lines before the first m-line are
      dropped. */
  function Segments(lines: seq<string>): seq<seq<string>>
    decreases |lines|
  {
    if lines == [] then []
    else
      var prev := Segments(lines[..|lines| - 1]);
      var l := lines[|lines| - 1];
      if IsMLine(l) then prev + [[l]]
      else if prev == [] then []
      else prev[..|prev| - 1] + [prev[|prev| - 1] + [l]]
  }

  /** `break_up_by_m_lines`: appends each line to the last section, opening
      a new one at every m-line. */
  method BreakUpByMLines(value: seq<string>) returns (res: seq<seq<string>>)
    ensures res == Segments(value)
  {
    res := [];
    for i := 0 to |value|
      invariant res == Segments(value[..i])
    {
      assert value[..i + 1][..i] == value[..i];
      var l := value[i];
      if IsMLine(l) {
        res := res + [[]];
        assert res[..|res| - 1] == Segments(value[..i]) && res[|res| - 1] == [];
        assert [] + [l] == [l];
      }
      if |res| > 0 {
        res := res[..|res| - 1] + [res[|res| - 1] + [l]];
      }
    }
    assert value[..|value|] == value;
  }

  /** The number of m-lines in `lines`. */
  function CountMLines(lines: seq<string>): nat
    decreases |lines|
  {
    if lines == [] then 0
    else CountMLines(lines[..|lines| - 1]) + (if IsMLine(lines[|lines| - 1]) then 1 else 0)
  }

  /** The sections put back together. */
  function Flatten(secs: seq<seq<string>>): seq<string>
    decreases |secs|
  {
    if secs == [] then [] else Flatten(secs[..|secs| - 1]) + secs[|secs| - 1]
  }

  /** Every section is non-empty, starts with an m-line and holds no other
      m-line. */
  predicate WellSegmented(secs: seq<seq<string>>)
  {
    forall k :: 0 <= k < |secs| ==>
      && |secs[k]| > 0
      && IsMLine(secs[k][0])
      && forall j :: 0 < j < |secs[k]| ==> !IsMLine(secs[k][j])
  }

  lemma FlattenSnoc(secs: seq<seq<string>>, sec: seq<string>)
    ensures Flatten(secs + [sec]) == Flatten(secs) + sec
  {
    assert (secs + [sec])[..|secs|] == secs;
  }

  lemma FlattenExtendLast(secs: seq<seq<string>>, l: string)
    requires secs != []
    ensures Flatten(secs[..|secs| - 1] + [secs[|secs| - 1] + [l]]) == Flatten(secs) + [l]
  {
    var init := secs[..|secs| - 1];
    FlattenSnoc(init, secs[|secs| - 1] + [l]);
  }

  /** One section per m-line. */
  lemma {:induction false} SegmentsCount(lines: seq<string>)
    ensures |Segments(lines)| == CountMLines(lines)
    decreases |lines|
  {
    if lines != [] {
      SegmentsCount(lines[..|lines| - 1]);
    }
  }

  /** Every section is non-empty, opens with an m-line and holds no other. */
  lemma {:induction false} SegmentsWellFormed(lines: seq<string>)
    ensures WellSegmented(Segments(lines))
    decreases |lines|
  {
    if lines != [] {
      var l := lines[|lines| - 1];
      var prev := Segments(lines[..|lines| - 1]);
      SegmentsWellFormed(lines[..|lines| - 1]);
      var secs := Segments(lines);
      if !IsMLine(l) && prev != [] {
        var k := |prev| - 1;
        assert secs == prev[..k] + [prev[k] + [l]];
        assert forall k' :: 0 <= k' < k ==> secs[k'] == prev[k'];
        assert secs[k] == prev[k] + [l];
        assert forall j :: 0 <= j < |prev[k]| ==> secs[k][j] == prev[k][j];
      } else if IsMLine(l) {
        assert forall k' :: 0 <= k' < |prev| ==> secs[k'] == prev[k'];
      }
    }
  }

  /** None of `lines` is an m-line. */
  predicate NoMLines(lines: seq<string>)
  {
    forall i :: 0 <= i < |lines| ==> !IsMLine(lines[i])
  }

  /** What one more line does to the sections put back together: nothing
      before the first m-line, otherwise it is appended. */
  lemma FlattenSegmentsSnoc(init: seq<string>, l: string)
    ensures Flatten(Segments(init + [l])) ==
      if Segments(init) == [] && !IsMLine(l) then [] else Flatten(Segments(init)) + [l]
  {
    var prev := Segments(init);
    assert (init + [l])[..|init|] == init;
    if IsMLine(l) {
      FlattenSnoc(prev, [l]);
    } else if prev != [] {
      FlattenExtendLast(prev, l);
    }
  }

  /** The cover facts carried over one more line, for any `f` standing for
      the flattened sections before it and `g` for those after. */
  lemma SuffixStep(init: seq<string>, l: string, f: seq<string>, g: seq<string>)
    requires |f| <= |init| && init[|init| - |f|..] == f
    requires g == [] || g == f + [l]
    ensures |g| <= |init| + 1 && (init + [l])[|init| + 1 - |g|..] == g
  {
    if g != [] {
      assert (init + [l])[|init| - |f|..] == init[|init| - |f|..] + [l];
    }
  }

  lemma PreambleStep(init: seq<string>, l: string, f: seq<string>, g: seq<string>)
    requires |f| <= |init| && NoMLines(init[..|init| - |f|])
    requires g == [] ==> f == [] && !IsMLine(l)
    requires g == [] || g == f + [l]
    ensures |g| <= |init| + 1 && NoMLines((init + [l])[..|init| + 1 - |g|])
  {
    if g == [] {
      assert (init + [l])[..|init| + 1] == init + [l];
      assert init[..|init|] == init;
    } else {
      assert (init + [l])[..|init| - |f|] == init[..|init| - |f|];
    }
  }

  /** Put back together, the sections are a suffix of the input. */
  lemma {:induction false} SegmentsSuffix(lines: seq<string>)
    ensures |Flatten(Segments(lines))| <= |lines|
    ensures lines[|lines| - |Flatten(Segments(lines))|..] == Flatten(Segments(lines))
    decreases |lines|
  {
    if lines != [] {
      var init, l := lines[..|lines| - 1], lines[|lines| - 1];
      assert lines == init + [l];
      SegmentsSuffix(init);
      FlattenSegmentsSnoc(init, l);
      SuffixStep(init, l, Flatten(Segments(init)), Flatten(Segments(lines)));
    }
  }

  /** The lines the sections leave out, those before the first m-line, hold
      no m-line. */
  lemma {:induction false} SegmentsPreamble(lines: seq<string>)
    ensures |Flatten(Segments(lines))| <= |lines|
    ensures NoMLines(lines[..|lines| - |Flatten(Segments(lines))|])
    decreases |lines|
  {
    if lines != [] {
      var init, l := lines[..|lines| - 1], lines[|lines| - 1];
      assert lines == init + [l];
      SegmentsPreamble(init);
      FlattenSegmentsSnoc(init, l);
      if Segments(init) == [] {
        assert Flatten(Segments(init)) == [];
      }
      PreambleStep(init, l, Flatten(Segments(init)), Flatten(Segments(lines)));
    }
  }

  /** The three facts together: one well-formed section per m-line, covering
      the input from its first m-line on. */
  lemma SegmentsPartition(lines: seq<string>)
    ensures var secs := Segments(lines);
      && |secs| == CountMLines(lines)
      && WellSegmented(secs)
      && |Flatten(secs)| <= |lines|
      && lines == lines[..|lines| - |Flatten(secs)|] + Flatten(secs)
      && NoMLines(lines[..|lines| - |Flatten(secs)|])
  {
    SegmentsCount(lines);
    SegmentsWellFormed(lines);
    SegmentsSuffix(lines);
    SegmentsPreamble(lines);
    var p := |lines| - |Flatten(Segments(lines))|;
    assert lines == lines[..p] + lines[p..];
  }

  /** Without an m-line there are no sections. */
  lemma NoMLineNoSections(lines: seq<string>)
    requires forall i :: 0 <= i < |lines| ==> !IsMLine(lines[i])
    ensures Segments(lines) == []
  {
    SegmentsCount(lines);
    NoMLineCountsZero(lines);
  }

  lemma {:induction false} NoMLineCountsZero(lines: seq<string>)
    requires forall i :: 0 <= i < |lines| ==> !IsMLine(lines[i])
    ensures CountMLines(lines) == 0
    decreases |lines|
  {
    if lines != [] {
      NoMLineCountsZero(lines[..|lines| - 1]);
    }
  }

  // ---------------------------------------------------------------------------
  // count_accepted_m_lines

  /** A direction line other than `a=inactive`. */
  predicate Accepting(l: string)
  {
    DirectionOf(l).Some? && DirectionOf(l).value != Inactive
  }

  /** The section accepts the media stream. */
  predicate HasAccepting(sec: seq<string>)
  {
    exists j :: 0 <= j < |sec| && Accepting(sec[j])
  }

  /** The number of accepting sections. */
  function AcceptedCount(secs: seq<seq<string>>): (r: nat)
    ensures r <= |secs|
    decreases |secs|
  {
    if secs == [] then 0
    else AcceptedCount(secs[..|secs| - 1]) + (if HasAccepting(secs[|secs| - 1]) then 1 else 0)
  }

  /** The inner loop of `count_accepted_m_lines` over one section, from the
      direction `d` it starts with: the direction it leaves and whether it
      saw an accepting line. Once one is seen, later lines are skipped. */
  function ScanSection(d: Option<Direction>, sec: seq<string>): (Option<Direction>, bool)
    decreases |sec|
  {
    if sec == [] then (d, false)
    else
      var (d', seen) := ScanSection(d, sec[..|sec| - 1]);
      var l := sec[|sec| - 1];
      if seen then (d', true)
      else
        match DirectionOf(l)
        case None => (d', false)
        case Some(x) => (Some(x), x != Inactive)
  }

  /** The outer loop: the direction left after scanning every section. */
  function DirectionAfter(d: Option<Direction>, secs: seq<seq<string>>): Option<Direction>
    decreases |secs|
  {
    if secs == [] then d
    else ScanSection(DirectionAfter(d, secs[..|secs| - 1]), secs[|secs| - 1]).0
  }

  /** The last direction line of `lines`, or `d` when there is none. */
  function LastDirection(d: Option<Direction>, lines: seq<string>): Option<Direction>
    decreases |lines|
  {
    if lines == [] then d
    else if DirectionOf(lines[|lines| - 1]).Some? then DirectionOf(lines[|lines| - 1])
    else LastDirection(d, lines[..|lines| - 1])
  }

  /** What the scan of one section leaves: it has seen an accepting line
      exactly when the section has one; then the direction is that of the
      section's first accepting line, and otherwise it is the section's last
      direction line (an `a=inactive`) or, with none, the direction before. */
  lemma {:induction false} ScanSectionMeaning(d: Option<Direction>, sec: seq<string>)
    ensures ScanSection(d, sec).1 == HasAccepting(sec)
    ensures ScanSection(d, sec).1 ==>
      exists j :: 0 <= j < |sec| && Accepting(sec[j])
        && (forall i :: 0 <= i < j ==> !Accepting(sec[i]))
        && ScanSection(d, sec).0 == DirectionOf(sec[j])
    ensures !ScanSection(d, sec).1 ==> ScanSection(d, sec).0 == LastDirection(d, sec)
    decreases |sec|
  {
    if sec != [] {
      var init := sec[..|sec| - 1];
      var l := sec[|sec| - 1];
      ScanSectionMeaning(d, init);
      var (d', seen) := ScanSection(d, init);
      if seen {
        var j :| 0 <= j < |init| && Accepting(init[j])
          && (forall i :: 0 <= i < j ==> !Accepting(init[i]))
          && d' == DirectionOf(init[j]);
        assert sec[j] == init[j];
        assert forall i :: 0 <= i < j ==> sec[i] == init[i];
      } else {
        assert forall i :: 0 <= i < |init| ==> sec[i] == init[i];
        assert forall i :: 0 <= i < |init| ==> !Accepting(sec[i]);
      }
    }
  }

  /** No section holds a direction line. */
  predicate NoDirectionLines(secs: seq<seq<string>>)
  {
    forall k, j :: 0 <= k < |secs| && 0 <= j < |secs[k]| ==> DirectionOf(secs[k][j]).None?
  }

  lemma {:induction false} ScanSectionNone(d: Option<Direction>, sec: seq<string>)
    ensures (forall j :: 0 <= j < |sec| ==> DirectionOf(sec[j]).None?) ==> ScanSection(d, sec) == (d, false)
    ensures (exists j :: 0 <= j < |sec| && DirectionOf(sec[j]).Some?) ==> ScanSection(d, sec).0.Some?
    ensures d.Some? ==> ScanSection(d, sec).0.Some?
    decreases |sec|
  {
    if sec != [] {
      var init := sec[..|sec| - 1];
      ScanSectionNone(d, init);
      assert forall i :: 0 <= i < |init| ==> sec[i] == init[i];
      if exists j :: 0 <= j < |sec| && DirectionOf(sec[j]).Some? {
        var j :| 0 <= j < |sec| && DirectionOf(sec[j]).Some?;
        if j < |init| {
          assert DirectionOf(init[j]).Some?;
        }
      }
    }
  }

  /** Starting from no direction, the scan ends with none exactly when no
      section has a direction line at all; the analyser then takes its
      `no_direction` path. */
  lemma {:induction false} NoDirectionIff(secs: seq<seq<string>>)
    ensures DirectionAfter(None, secs).None? <==> NoDirectionLines(secs)
    decreases |secs|
  {
    if secs != [] {
      var init := secs[..|secs| - 1];
      var last := secs[|secs| - 1];
      NoDirectionIff(init);
      var d := DirectionAfter(None, init);
      ScanSectionNone(d, last);
      if NoDirectionLines(secs) {
        assert NoDirectionLines(init) by {
          assert forall k :: 0 <= k < |init| ==> init[k] == secs[k];
        }
        assert forall j :: 0 <= j < |last| ==> DirectionOf(last[j]).None?;
      } else if NoDirectionLines(init) {
        assert forall k :: 0 <= k < |init| ==> init[k] == secs[k];
        var k, j :| 0 <= k < |secs| && 0 <= j < |secs[k]| && DirectionOf(secs[k][j]).Some?;
        assert k == |init|;
        assert DirectionOf(last[j]).Some?;
      } else {
        assert !NoDirectionLines(init);
        assert d.Some?;
      }
    }
  }
}
