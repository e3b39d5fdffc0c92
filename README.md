# ICE call analyser, modelled in Dafny

This project models `analyze.py`, a batch classifier for WebRTC signalling
logs. The log is a comma-separated file with one row per signalling event
(`offer`, `answer` or trickled `candidate`) of a call. The analyser works in
two phases:

1. It routes every row, by its `callid` column, into a `Call`.
2. It analyses each call once and files it under failure, warning and
   direction reasons.

The model covers the whole decision logic:

- **Address classifier** (`address.dfy`, module `Address`):
  - `addr2int` folds the dotted parts of an address into an integer.
  - `match_prefix` builds a top-bits mask in a 32-step loop.
  - `Candidate.is_public` rejects the private blocks of section 3 of
    RFC 1918.
  - Python's unbounded integers and its `&` on two's-complement values are
    modelled exactly (`BitAnd`), with no range check on the parts.
- **Candidate parser** (`candidate.dfy`, module `Candidates`):
  `Candidate.__init__` tokenises the line and takes the fields by position.
  The label `a=candidate` or `candidate` must be a token of its own, followed
  by a numeric index. This differs from the `candidate-attribute` grammar of
  section 15.1 of RFC 5245, which joins the foundation to the label
  (`a=candidate:1 1 UDP ...`); the code rejects that form as "Not a
  candidate", and so does the model (`NotACandidate`).
- **SDP segmenter and direction scan** (`sdp.dfy`, module `Sdp`):
  - `break_up_by_m_lines` cuts a session description at its media lines
    (section 5.14 of RFC 4566).
  - `count_accepted_m_lines` scans the direction attributes of the answer.
- **Tallies** (`aggregate.dfy`, module `Tallies`): the three global
  dictionaries `FAILURES_BY_REASON`, `WARNINGS_BY_REASON` and
  `STATS_BY_REASON`. They become one `Tally` value that each step takes and
  gives back.
- **The call** (`call.dfy`, module `Calls`):
  - The class `Call` has the fields the source updates in place.
  - Its methods `add_*`, `expand_candidates`, `expand`,
    `count_accepted_m_lines`, `failed`/`warn`/`stats` and `analyze` are
    loops and updates, each proved against a pure specification function
    (`Ingest`, `ParseAll`, `AnswerCandidates`, `Expanded`, `Rules`, `Judge`,
    `Classify`).
  - The pass over every call is `AnalyzeAll`.
- **Row reading** (`rows.dfy`, module `Rows`): `strip_quotes` and the row
  loop of `parse_file`. It reads each line into columns and routes the row
  to the call of its id.
- **Python built-ins** (`text.dfy`, module `Text`): `str.split()`,
  `str.split(sep)`, `str.strip(chars)`, `int()` and `str()` as the analyser
  uses them.

Every fatal point of the source becomes an `Err(fault)` or `Fail(fault)`
value, and callers stop at the first one, as the program does. These are
the calls to `die` and every uncaught exception (`IndexError`,
`ValueError`, `KeyError`, and the `AttributeError` described below).

Behaviour of the code the model keeps deliberately:

- `addr2int` does not range-check octets: `"300.0.0.1"` folds like any
  other address, and a non-integer part aborts (`MalformedAddress`).
- The eighth token of a candidate line (`typ` in a well-formed line) is
  compared with `typ` only to print a console notice when it differs; the
  candidate's state ignores it, and so does the model. A line with another
  token there parses, and the ninth token is still taken as the type
  (`Candidates.MarkerIgnored`).
- A call whose answer has no direction attribute does not get the warning
  `no_direction`. Line 210 calls `self.warning`, which does not exist (the
  method is `warn`), so the run aborts. This is the fault `NoWarningMethod`
  (`Calls.NoDirectionAborts`).
- The direction is overwritten by every direction line of a section up to
  and including that section's first accepting one. This includes
  `a=inactive` lines, and it carries on across sections. It is neither a
  "first line" nor a "last section" rule (`Sdp.ScanSectionMeaning`).
- `failed_` is overwritten by each failure. A call with too few answer
  candidates always also has too few public ones, so it is listed under
  both reasons and ends failed with the second
  (`Calls.TooFewAnswerThenTooFewPublic`).

## Model

| member | source | states |
|---|---|---|
| `Text.WordsOfJoin` | analyze.py:37 | `split()` of whitespace-free tokens joined by spaces gives back exactly those tokens |
| `Text.JoinOfSplit` | analyze.py:251 | joining the pieces of `split(sep)` with `sep` gives back the original string, so splitting the `sdp` column at `????` loses nothing |
| `Text.SplitOfJoin` | analyze.py:16 | splitting at a one-character separator that no piece contains gives back the pieces |
| `Text.StripOfPadded` | analyze.py:233 | `strip(chars)` removes exactly the surrounding characters from `chars` and nothing of a core that neither starts nor ends with one |
| `Text.StripIdempotent` | analyze.py:233 | stripping twice is stripping once |
| `Text.ParseIntOfShow` | analyze.py:42-47 | `int(str(n)) == n` for every integer, negative ones included |
| `Address.FoldPartsFails` | analyze.py:16 | the `reduce` over the dotted parts fails exactly when some part is not an integer, whatever the starting value |
| `Address.AddrToInt` | analyze.py:15-16 | `addr2int` fails exactly when some part between dots is not an integer, and then as a malformed address |
| `Address.AddrToIntOfQuad` | analyze.py:15-16 | `addr2int("a.b.c.d") == a*2^24 + b*2^16 + c*2^8 + d` for any four integers, with no range check on them |
| `Address.MaskHasTopBits` | analyze.py:22-26 | the mask has bit j set exactly when `32 - len <= j < 32` (len clamped to 0..32): the top `len` of 32 bits and nothing above them |
| `Address.MaskValue` | analyze.py:22-26 | as a number the mask is `2^32 - 2^(32 - len)` |
| `Address.BitAndTopOnes` | analyze.py:28 | masking with bits k..n-1 keeps exactly those bits of the two's-complement value: the low n bits minus the low k bits |
| `Address.MatchPrefix` | analyze.py:18-31 | the 32-step shift loop builds the mask, and the result is whether the masked address equals the prefix; a malformed address or prefix aborts |
| `Address.MaskedPrefixIsBlock` | analyze.py:54-61 | under the 8-, 12- and 16-bit masks, equality with 10.0.0.0, 172.16.0.0 and 192.168.0.0 holds exactly when the low 32 bits lie in that block |
| `Address.PrefixConstants` | analyze.py:54-61 | the three prefix strings fold to 0x0A000000, 0xAC100000 and 0xC0A80000 |
| `Address.IsPublic` | analyze.py:53-63 | `is_public` is false exactly when the low 32 bits of `addr2int` lie in 10.0.0.0/8, 172.16.0.0/12 or 192.168.0.0/16; a malformed address aborts |
| `Address.PublicOfQuad` | analyze.py:53-63 | for octets in 0..255, `is_public` is false exactly when a = 10, or a = 172 with 16 <= b <= 31, or a = 192 with b = 168 |
| `Candidates.Parse` | analyze.py:34-50 | a parsed candidate carries the event time and the line; a parse fails only as not-a-candidate or as malformed |
| `Candidates.UnknownLabelIsFatal` | analyze.py:38-40 | a first token other than `a=candidate` or `candidate` is fatal, whatever follows |
| `Candidates.PositionalFields` | analyze.py:42-50 | with a label and nine tokens, tokens 2-7 become index, component, transport, priority, address and port, and token 9 is the type |
| `Candidates.ShortLineIsMalformed` | analyze.py:42-50 | a labelled line with fewer than nine tokens aborts, through an `IndexError` from a `pop` on the exhausted token list or a `ValueError` from `int()` on a missing numeric field (`candidate x` fails at the index) |
| `Candidates.MarkerIgnored` | analyze.py:48-50 | replacing the eighth token changes neither success nor any parsed field: a missing `typ` is not an error |
| `Candidates.ParseOfFormat` | analyze.py:34-50 | parsing a well-formed line written from a candidate's fields gives back index, component, transport, priority, address, port and type |
| `Sdp.BreakUpByMLines` | analyze.py:140-148 | the loop that appends into the last section computes `Segments` of its input |
| `Sdp.SegmentsCount` | analyze.py:140-148 | there is one section per line matching `m=\S` |
| `Sdp.SegmentsWellFormed` | analyze.py:140-148 | every section is non-empty, starts with an m-line and holds no later m-line |
| `Sdp.SegmentsSuffix` | analyze.py:140-148 | put back together, the sections are a suffix of the input |
| `Sdp.SegmentsPreamble` | analyze.py:140-148 | the lines the sections drop hold no m-line, so they are exactly the lines before the first one |
| `Sdp.SegmentsPartition` | analyze.py:140-148 | the sections partition the input from its first m-line on: one well-formed section per m-line, and the dropped prefix has none |
| `Sdp.NoMLineNoSections` | analyze.py:140-148 | without an m-line there are no sections |
| `Sdp.AcceptedCount` | analyze.py:156-167 | the number of accepted sections is at most the number of sections |
| `Sdp.ScanSectionMeaning` | analyze.py:159-167 | a section is accepted exactly when it has a direction line other than `a=inactive`; the direction left is that of its first such line, else its last direction line, else the one before |
| `Sdp.NoDirectionIff` | analyze.py:156-167 | starting from none, the scan leaves no direction exactly when no section has a direction line |
| `Tallies.Append` | analyze.py:177-179 | creating a reason's list on first use and appending the call adds exactly that call under that reason and leaves every other reason as it was |
| `Tallies.StepAppends` | analyze.py:172-195 | one filing only appends, and lists the call under the reason it names |
| `Tallies.RecordGrows` | analyze.py:172-195 | filing a call's entries only appends: every list keeps what it held |
| `Tallies.RecordFiles` | analyze.py:172-195 | the call appears under every reason it was filed under |
| `Tallies.RecordConcat` | analyze.py:172-195 | filing two runs of entries one after the other is filing their concatenation, so a call's entries can be filed in pieces as `analyze` does |
| `Tallies.LastFailureConcat` | analyze.py:172-180 | the failure left after two runs is that of the second, starting from the first's |
| `Tallies.WarningsConcat` | analyze.py:182-190 | the warnings of two runs are those of each, in order |
| `Tallies.NoWarningsIn` | analyze.py:182-190 | entries without a warning add no warning |
| `Calls.Ingest` | analyze.py:93-113 | one event is fatal exactly when it is a second offer or a second answer; a stored offer or answer is never replaced; candidates only grow; another type changes nothing |
| `Calls.IngestAllMeaning` | analyze.py:93-113 | a run of events succeeds exactly when it brings at most one offer and one answer; then these are the ones delivered, and the candidates are those held followed by the candidate events in arrival order |
| `Calls.ParseAllFails` | analyze.py:117-124 | a body aborts exactly when one of its lines containing `a=candidate` does not parse |
| `Calls.ParseAllShape` | analyze.py:117-124 | a body that parses gives one candidate per line containing `a=candidate`, in order: the candidate that line parses to at the body's time |
| `Calls.ParseTrickledFails` | analyze.py:126-127 | trickled events abort exactly when the first line of one of them does not parse |
| `Calls.ParseTrickledShape` | analyze.py:126-127 | each trickled event gives one candidate, in order: the candidate its first line parses to at the event's own time |
| `Calls.AnswerCandidatesShape` | analyze.py:121-127 | the answer candidates are those the body's candidate lines parse to at the answer time, then one per trickled event, parsed from its first line at its own time; their number is the sum of the two |
| `Calls.CollectCandidates` | analyze.py:117-124 | the loop over an SDP body computes `ParseAll`, stopping at the first line that does not parse |
| `Calls.CollectTrickled` | analyze.py:126-127 | the loop over the trickled events computes `ParseTrickled` |
| `Calls.PublicCount` | analyze.py:218-221 | the public count is at most the number of candidates |
| `Calls.CountPublic` | analyze.py:218-221 | the counting loop computes `PublicCount`; an address that does not parse aborts |
| `Calls.AcceptedBounds` | analyze.py:156-170 | `accepted_` is the number of answer sections with an accepting direction line, and at most the number of m-lines of the answer |
| `Calls.Rules` | analyze.py:211-225 | no answer candidate gives `no_answer_candidates` alone; otherwise `too_few_answer_candidates` appears iff the count is below 2*accepted, and `too_few_public_candidates` iff the public count is; only an unparsable address aborts |
| `Calls.Judge` | analyze.py:207-225 | with no direction the run aborts (`NoWarningMethod`); with one it aborts exactly when there are answer candidates and counting the public ones aborts on a malformed address; otherwise the call yields one to three entries: first a count under its direction, then only failures, namely the rule failures |
| `Calls.Verdict` | analyze.py:206-225 | a failed expansion aborts with its fault and a missing direction aborts with `NoWarningMethod`; otherwise it yields the judgement of the expanded call, which starts with a count, then holds only failures and adds no warning |
| `Calls.Classify` | analyze.py:197-225 | no offer gives `no_offer` alone; an offer without an answer gives `no_answer` alone; otherwise `long_lag_time` is filed exactly when the answer is more than 5 seconds after the offer |
| `Calls.ClassifySplits` | analyze.py:204-225 | with offer and answer, filing the call is filing the lag warning and then the verdict; the verdict alone decides `failed_`; the lag warning is the only warning |
| `Calls.NoDirectionAborts` | analyze.py:207-210 | the answer settles on no direction exactly when no section has a direction line, and then the run aborts at the call of the missing `warning` method |
| `Calls.TooFewAnswerRules` | analyze.py:214-225 | when the rules find too few answer candidates they find exactly that and too few public ones, since the public count never exceeds the candidate count |
| `Calls.EndsWithBothFailures` | analyze.py:172-180 | entries that end with both candidate failures list the call under both and leave `failed_` as the second |
| `Calls.TooFewAnswerThenTooFewPublic` | analyze.py:214-225 | too few answer candidates implies too few public ones: the call is listed under both failures and ends failed with `too_few_public_candidates` |
| `Calls.ClassifyFiles` | analyze.py:197-225 | an analysis that does not abort files the call at least once, and under a failure when the offer or answer is missing |
| `Calls.FiledStays` | analyze.py:172-195 | filing more entries keeps every call where it was filed |
| `Calls.ClassifyAllFilesEach` | analyze.py:266-267 | after a pass over all calls that does not abort, every call is listed under the first entry its own analysis made |
| `Calls.ClassifyAllStep` | analyze.py:266-267 | the pass files one more call over the tallies of the calls before it |
| `Calls.AnalyzeJob` | analyze.py:266-267 | one turn of the loop gives the tallies filed with the call's `Classify` entries, or its fault, and leaves the call settled as its analysis says, with its offer, answer and candidates as they were |
| `Calls.AnalyzeAll` | analyze.py:266-267 | analysing distinct call objects in turn gives `ClassifyAll` of their states before the pass; after a pass that does not abort, each call keeps the offer, answer and candidates its rows delivered, its `failed_` and `warnings_` follow its own `Classify` entries, and its expansion fields are `Expanded` of what it held (unchanged when it lacked an offer or an answer) |
| `Calls.Call.constructor` | analyze.py:82-91 | a new call holds nothing, has not failed, has no warnings and no direction |
| `Calls.Call.AddOffer` | analyze.py:102-105 | a second offer is fatal and keeps the first; otherwise the offer is stored |
| `Calls.Call.AddAnswer` | analyze.py:107-110 | a second answer is fatal and keeps the first; otherwise the answer is stored |
| `Calls.Call.AddCandidate` | analyze.py:112-113 | the event is appended to the trickled candidates |
| `Calls.Call.AddValue` | analyze.py:93-100 | the call's offer, answer and candidates become `Added` of the row; a missing column or bad date aborts and changes nothing |
| `Calls.Call.ExpandCandidates` | analyze.py:115-127 | the offer and answer candidate fields become `ParseAll` of the offer body and `AnswerCandidates` of the answer; the first line that does not parse aborts |
| `Calls.Call.CountAcceptedMLines` | analyze.py:156-167 | the nested loops leave `accepted_` as the number of accepted answer sections and `direction_` as the per-section overwriting scan says |
| `Calls.Call.Expand` | analyze.py:150-154 | the expansion fields become `Expanded` of the call's offer, answer and trickled events (both segmentations, both candidate lists, the answer's accepted count and direction), or the run aborts with the offer's parse fault, else the answer's |
| `Calls.Call.ExpectedComponents` | analyze.py:169-170 | once `accepted_` is set, the expected count is twice the number of accepted media sections of the answer, so at most two per section |
| `Calls.Call.Failed` | analyze.py:172-180 | the call is appended under the reason and `failed_` becomes that reason |
| `Calls.Call.Warn` | analyze.py:182-190 | the call is appended under the reason and the reason is appended to `warnings_` |
| `Calls.Call.Stats` | analyze.py:192-195 | the call is appended under its direction |
| `Calls.Call.WarnIfLate` | analyze.py:204-205 | a late answer is filed as `long_lag_time` and added to `warnings_`; otherwise nothing changes |
| `Calls.Call.ApplyRules` | analyze.py:211-225 | the call files the failures `Rules` lists, and `failed_` ends as the last of them |
| `Calls.Call.Conclude` | analyze.py:207-225 | the call files its direction and the rule failures `Judge` lists, or aborts when there is no direction |
| `Calls.Call.Decide` | analyze.py:206-225 | the call files the entries of `Verdict`, and its expansion fields (sections, candidates, `accepted_`, `direction_`) become `Expanded` of what it held |
| `Calls.Call.Proceed` | analyze.py:204-225 | with offer and answer, the call files the entries of `Classify`, and its expansion fields become `Expanded` of what it held |
| `Calls.Call.Analyze` | analyze.py:197-225 | the tallies, `failed_` and `warnings_` after `analyze` are those of filing `Classify`'s entries in order (a missing offer or answer files that one failure, sets `failed_` to it and adds no warning); with offer and answer the expansion fields become `Expanded` of what the call held, and without one of them they stay unchanged; a fault aborts |
| `Rows.StripQuotes` | analyze.py:232-233 | every column keeps its position and neither starts nor ends with a quote or space |
| `Rows.StripQuotesOfQuoted` | analyze.py:232-233 | unquoting gives back columns written between double quotes |
| `Rows.StripQuotesIdempotent` | analyze.py:232-233 | unquoting twice is unquoting once |
| `Rows.Columns` | analyze.py:242-243 | a line always has at least one column, and every column is stripped of quotes and spaces |
| `Rows.ColumnsOfRow` | analyze.py:242-243 | a row written as quoted columns joined by commas reads back as those columns |
| `Rows.ZipLookup` | analyze.py:248-250 | exactly the headers are keys, and a header that does not occur again names its own column |
| `Rows.ZipColumns` | analyze.py:248-250 | the dictionary loop computes `Zip` |
| `Rows.ReadRow` | analyze.py:242-253 | a row fails exactly on a column count other than the header's (`Bogus length`), a missing `sdp` column or a missing `callid` column, in that order; otherwise every header is a field and the call id is the `callid` column |
| `Rows.ReadRowOfQuoted` | analyze.py:242-251 | a row of quoted columns under distinct headers reads back with its call id, its SDP lines cut at `????`, and every header naming its own column |
| `Rows.ReadLine` | analyze.py:242-251 | reading a line computes `ReadRow` |
| `Rows.Route` | analyze.py:253-256 | the row goes to the call of its id, created on first sight, which takes it as `add_value` says; every other call is unchanged |
| `Rows.RouteRowsStep` | analyze.py:241-256 | one more row is routed over the calls of the rows before it |
| `Rows.RoutedToOwnCall` | analyze.py:241-256 | every call holds exactly what its own rows deliver, ingested in order from nothing |
| `Rows.RowsHaveCalls` | analyze.py:241-256 | after a run that does not abort, every row was read and names a call that exists |
| `Rows.CallsHaveRows` | analyze.py:253-256 | every call that exists is named by some row |
| `Rows.Deliver` | analyze.py:253-256 | the call object of the row's id, new if unseen, ingests the row; the call objects hold what `Route` says |
| `Rows.Feed` | analyze.py:242-256 | one data line is read and delivered, with the faults of either step |
| `Rows.ParseRows` | analyze.py:241-256 | the loop builds one new call object per id, holding what `ReadRows` says, or stops at the first fault |
| `Rows.ParseFile` | analyze.py:235-256 | the headers are the columns of the first line, and the calls are those of `ReadRows` over the data lines |

## Left out

- Argument parsing, opening the file and reading it line by line
  (analyze.py:258-264) are I/O. `Rows.ParseFile` takes the header line and
  the data lines as strings.
- The summary printed at the end (analyze.py:270-280) and the dump of
  unfailed calls (`Call.dump`, analyze.py:129-138, 282-286) only format
  output.
- The console messages of `failed`, `warn` and the missing-`typ` branch
  (analyze.py:49, 176, 186) have no effect on state and are not modelled.
  The text of a failure's detail (`"%d < %d"`) only reaches that message.
- `die` (analyze.py:227-230) writes to standard error and exits. It is
  modelled as an error result that callers propagate unchanged.
- `Event.convert_date` (analyze.py:76-79) relies on the library's
  `strptime` and calendar arithmetic. It is the parameter `DateParser`,
  which returns whole seconds or `None` for a date it rejects.
- The tallies list call ids where the source appends the call objects.
- `CALLS` is a dictionary whose iteration order is not fixed.
  `Calls.AnalyzeAll` takes the calls in whatever order it is given.
- The unused fields `offer_time_` and `answer_time_` (always `None`) are
  not modelled.
