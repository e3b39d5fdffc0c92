/** The Python 2 string built-ins the analyser relies on: `str.split()`,
    `str.split(sep)`, `str.strip(chars)`, `str.find(...) != -1`, `int(...)`
    on a token and, as its inverse, `str(...)` of an integer. */
module Text {
  import opened Errors

  /** The characters Python 2's `str.split()`, `str.strip()` and the regular
      expression class `\s` treat as whitespace. */
  const Whitespace: set<char> := {' ', '\t', '\n', '\r', '\U{0B}', '\U{0C}'}

  predicate IsSpace(c: char) { c in Whitespace }

  /** A non-empty run of non-whitespace characters. */
  predicate IsToken(w: string)
  {
    |w| > 0 && forall i :: 0 <= i < |w| ==> !IsSpace(w[i])
  }

  // ---------------------------------------------------------------------------
  // str.split() : tokens separated by runs of whitespace

  /** The length of the leading run of non-whitespace characters of `s`. */
  function WordEnd(s: string): (k: nat)
    ensures k <= |s|
    ensures forall i :: 0 <= i < k ==> !IsSpace(s[i])
    ensures k < |s| ==> IsSpace(s[k])
  {
    if s == [] || IsSpace(s[0]) then 0 else 1 + WordEnd(s[1..])
  }

  /** Python's `s.split()`: the maximal runs of non-whitespace characters of
      `s`, in order; leading, trailing and repeated whitespace yield nothing. */
  function Words(s: string): (r: seq<string>)
    ensures forall i :: 0 <= i < |r| ==> IsToken(r[i])
    decreases |s|
  {
    if s == [] then []
    else if IsSpace(s[0]) then Words(s[1..])
    else
      var k := WordEnd(s);
      [s[..k]] + Words(s[k..])
  }

  /** Python's `sep.join(parts)`. */
  function Join(parts: seq<string>, sep: string): string
  {
    if parts == [] then ""
    else if |parts| == 1 then parts[0]
    else parts[0] + sep + Join(parts[1..], sep)
  }

  /** A join of non-empty end pieces starts with the first piece's first
      character and ends with the last piece's last one. */
  lemma {:induction false} JoinEnds(parts: seq<string>, sep: string)
    requires |parts| >= 1
    ensures |parts[0]| > 0 ==> |Join(parts, sep)| > 0 && Join(parts, sep)[0] == parts[0][0]
    ensures |parts[|parts| - 1]| > 0 ==>
      && |Join(parts, sep)| > 0
      && Join(parts, sep)[|Join(parts, sep)| - 1] == parts[|parts| - 1][|parts[|parts| - 1]| - 1]
    decreases |parts|
  {
    if |parts| > 1 {
      JoinEnds(parts[1..], sep);
    }
  }

  lemma {:induction false} WordEndOfToken(w: string, t: string)
    requires IsToken(w)
    requires t == [] || IsSpace(t[0])
    ensures WordEnd(w + t) == |w|
    decreases |w|
  {
    var s := w + t;
    assert s[0] == w[0];
    if |w| > 1 {
      assert s[1..] == w[1..] + t;
      WordEndOfToken(w[1..], t);
    } else {
      assert s[1..] == t;
    }
  }

  /** Splitting tokens joined by single spaces gives the tokens back. */
  lemma {:induction false} WordsOfJoin(ws: seq<string>)
    requires forall i :: 0 <= i < |ws| ==> IsToken(ws[i])
    ensures Words(Join(ws, " ")) == ws
  {
    if |ws| == 1 {
      WordEndOfToken(ws[0], "");
      assert ws[0] + "" == ws[0];
      assert ws[0][..|ws[0]|] == ws[0];
      assert ws[0][|ws[0]|..] == [];
    } else if |ws| > 1 {
      var w, rest := ws[0], Join(ws[1..], " ");
      var s := w + " " + rest;
      WordEndOfToken(w, " " + rest);
      assert s == w + (" " + rest);
      assert s[..|w|] == w;
      assert s[|w|..] == " " + rest;
      assert (" " + rest)[1..] == rest;
      WordsOfJoin(ws[1..]);
    }
  }

  // ---------------------------------------------------------------------------
  // str.split(sep) : pieces between non-overlapping occurrences of sep

  /** Scans `s` left to right; `cur` is the piece collected so far. */
  function SplitFrom(s: string, sep: string, cur: string): (r: seq<string>)
    requires |sep| > 0
    ensures |r| >= 1
    decreases |s|
  {
    if s == [] then [cur]
    else if sep <= s then [cur] + SplitFrom(s[|sep|..], sep, [])
    else SplitFrom(s[1..], sep, cur + [s[0]])
  }

  /** Python's `s.split(sep)` for a non-empty separator: always at least one
      piece, empty pieces kept. */
  function Split(s: string, sep: string): (r: seq<string>)
    requires |sep| > 0
    ensures |r| >= 1
  {
    SplitFrom(s, sep, "")
  }

  lemma {:induction false} JoinSplitFrom(s: string, sep: string, cur: string)
    requires |sep| > 0
    ensures Join(SplitFrom(s, sep, cur), sep) == cur + s
    decreases |s|
  {
    if s == [] {
    } else if sep <= s {
      JoinSplitFrom(s[|sep|..], sep, []);
      JoinSplitAtSep(s, sep, cur);
    } else {
      JoinSplitFrom(s[1..], sep, cur + [s[0]]);
      assert s == [s[0]] + s[1..];
    }
  }

  lemma ConcatAssoc(a: string, b: string, c: string)
    ensures a + b + c == a + (b + c)
  {
  }

  /** Joining a piece in front of at least one more. */
  lemma JoinCons(p: string, rest: seq<string>, sep: string)
    requires |rest| >= 1
    ensures Join([p] + rest, sep) == p + sep + Join(rest, sep)
  {
    assert ([p] + rest)[1..] == rest;
  }

  /** The step of `JoinSplitFrom` at an occurrence of the separator. */
  lemma JoinSplitAtSep(s: string, sep: string, cur: string)
    requires |sep| > 0 && s != [] && sep <= s
    requires Join(SplitFrom(s[|sep|..], sep, []), sep) == s[|sep|..]
    ensures Join(SplitFrom(s, sep, cur), sep) == cur + s
  {
    var tail := s[|sep|..];
    var rest := SplitFrom(tail, sep, []);
    SplitFromAtSep(s, sep, cur);
    JoinCons(cur, rest, sep);
    PrefixThenRest(s, sep);
    ConcatAssoc(cur, sep, tail);
  }

  /** At an occurrence of the separator the piece so far is closed. */
  lemma SplitFromAtSep(s: string, sep: string, cur: string)
    requires |sep| > 0 && s != [] && sep <= s
    ensures SplitFrom(s, sep, cur) == [cur] + SplitFrom(s[|sep|..], sep, [])
  {
  }

  lemma PrefixThenRest(s: string, p: string)
    requires p <= s
    ensures s == p + s[|p|..]
  {
    assert s[..|p|] == p;
    assert s == s[..|p|] + s[|p|..];
  }

  /** Joining the pieces with the separator gives back the split string. */
  lemma JoinOfSplit(s: string, sep: string)
    requires |sep| > 0
    ensures Join(Split(s, sep), sep) == s
  {
    JoinSplitFrom(s, sep, "");
  }

  lemma {:induction false} SplitSkipsPiece(p: string, t: string, c: char, cur: string)
    requires c !in p
    ensures SplitFrom(p + t, [c], cur) == SplitFrom(t, [c], cur + p)
    decreases |p|
  {
    if p != [] {
      var s := p + t;
      assert s[0] == p[0] && !([c] <= s);
      assert s[1..] == p[1..] + t;
      SplitSkipsPiece(p[1..], t, c, cur + [p[0]]);
      assert cur + [p[0]] + p[1..] == cur + p;
    } else {
      assert p + t == t && cur + p == cur;
    }
  }

  /** Splitting on a one-character separator that no piece contains gives the
      pieces back. */
  lemma {:induction false} SplitOfJoin(parts: seq<string>, c: char)
    requires |parts| >= 1
    requires forall i :: 0 <= i < |parts| ==> c !in parts[i]
    ensures Split(Join(parts, [c]), [c]) == parts
  {
    if |parts| == 1 {
      SplitSkipsPiece(parts[0], [], c, "");
      assert parts[0] + [] == parts[0] && "" + parts[0] == parts[0];
    } else {
      var rest := Join(parts[1..], [c]);
      assert Join(parts, [c]) == parts[0] + ([c] + rest);
      SplitSkipsPiece(parts[0], [c] + rest, c, "");
      assert "" + parts[0] == parts[0];
      assert [c] <= [c] + rest && ([c] + rest)[1..] == rest;
      SplitOfJoin(parts[1..], c);
    }
  }

  // ---------------------------------------------------------------------------
  // str.strip(chars)

  /** `s` without its leading characters from `cs`. */
  function TrimLeft(s: string, cs: set<char>): (r: string)
    ensures |r| <= |s| && r == s[|s| - |r|..]
    ensures r == [] || r[0] !in cs
    decreases |s|
  {
    if s != [] && s[0] in cs then TrimLeft(s[1..], cs) else s
  }

  /** `s` without its trailing characters from `cs`. */
  function TrimRight(s: string, cs: set<char>): (r: string)
    ensures r <= s
    ensures r == [] || r[|r| - 1] !in cs
    decreases |s|
  {
    if s != [] && s[|s| - 1] in cs then TrimRight(s[..|s| - 1], cs) else s
  }

  /** Python's `s.strip(chars)`: `s` without its leading and trailing
      characters from `cs`. */
  function Strip(s: string, cs: set<char>): (r: string)
    ensures r == [] || (r[0] !in cs && r[|r| - 1] !in cs)
  {
    TrimRight(TrimLeft(s, cs), cs)
  }

  /** All characters of `s` are in `cs`. */
  predicate AllIn(s: string, cs: set<char>)
  {
    forall i :: 0 <= i < |s| ==> s[i] in cs
  }

  lemma {:induction false} TrimLeftOfPadded(pre: string, w: string, cs: set<char>)
    requires AllIn(pre, cs)
    requires w == [] || w[0] !in cs
    ensures TrimLeft(pre + w, cs) == w
    decreases |pre|
  {
    if pre == [] {
      assert pre + w == w;
    } else {
      assert (pre + w)[0] == pre[0];
      assert (pre + w)[1..] == pre[1..] + w;
      assert AllIn(pre[1..], cs) by {
        assert forall i :: 0 <= i < |pre| - 1 ==> pre[1..][i] == pre[i + 1];
      }
      TrimLeftOfPadded(pre[1..], w, cs);
    }
  }

  lemma {:induction false} TrimRightOfPadded(w: string, post: string, cs: set<char>)
    requires AllIn(post, cs)
    requires w == [] || w[|w| - 1] !in cs
    ensures TrimRight(w + post, cs) == w
    decreases |post|
  {
    if post == [] {
      assert w + post == w;
    } else {
      var s := w + post;
      assert s[|s| - 1] == post[|post| - 1];
      assert s[..|s| - 1] == w + post[..|post| - 1];
      TrimRightOfPadded(w, post[..|post| - 1], cs);
    }
  }

  /** Stripping removes exactly the padding: `w` surrounded by characters of
      `cs` strips to `w` when `w` neither starts nor ends with one. */
  lemma StripOfPadded(pre: string, w: string, post: string, cs: set<char>)
    requires AllIn(pre, cs) && AllIn(post, cs)
    requires w == [] || (w[0] !in cs && w[|w| - 1] !in cs)
    ensures Strip(pre + w + post, cs) == w
  {
    if w == [] {
      var all := pre + post;
      assert pre + w + post == all + [];
      assert AllIn(all, cs) by {
        assert forall i :: 0 <= i < |all| ==> all[i] in cs by {
          assert forall i :: |pre| <= i < |all| ==> all[i] == post[i - |pre|];
        }
      }
      TrimLeftOfPadded(all, [], cs);
    } else {
      assert pre + w + post == pre + (w + post);
      TrimLeftOfPadded(pre, w + post, cs);
      TrimRightOfPadded(w, post, cs);
    }
  }

  /** Stripping twice is stripping once. */
  lemma StripIdempotent(s: string, cs: set<char>)
    ensures Strip(Strip(s, cs), cs) == Strip(s, cs)
  {
    var r := Strip(s, cs);
    assert [] + r + [] == r;
    StripOfPadded([], r, [], cs);
  }

  // ---------------------------------------------------------------------------
  // s.find(pat) != -1

  /** `pat` occurs somewhere in `s`. */
  predicate Contains(s: string, pat: string)
    decreases |s|
  {
    pat <= s || (s != [] && Contains(s[1..], pat))
  }

  // ---------------------------------------------------------------------------
  // int(token) and str(n)

  predicate IsDigit(c: char) { '0' as int <= c as int <= '9' as int }

  predicate IsDigits(s: string)
  {
    |s| > 0 && forall i :: 0 <= i < |s| ==> IsDigit(s[i])
  }

  function DigitsValue(s: string): nat
    requires forall i :: 0 <= i < |s| ==> IsDigit(s[i])
    decreases |s|
  {
    if s == [] then 0
    else
      assert IsDigit(s[|s| - 1]);
      DigitsValue(s[..|s| - 1]) * 10 + (s[|s| - 1] as int - '0' as int)
  }

  /** Python 2's `int(t)` on a whitespace-free token `t`: an optional sign and
      one or more decimal digits; anything else raises, modelled as `None`. */
  function ParseInt(t: string): Option<int>
  {
    if |t| > 0 && (t[0] == '+' || t[0] == '-') then
      if IsDigits(t[1..]) then
        var v: int := DigitsValue(t[1..]);
        Some(if t[0] == '-' then -v else v)
      else None
    else if IsDigits(t) then Some(DigitsValue(t))
    else None
  }

  function DigitChar(d: nat): (c: char)
    requires d < 10
    ensures IsDigit(c) && c as int - '0' as int == d
  {
    ('0' as int + d) as char
  }

  /** The decimal digits of `n`, most significant first. */
  function NatDigits(n: nat): (r: string)
    ensures IsDigits(r)
    decreases n
  {
    if n < 10 then [DigitChar(n)] else NatDigits(n / 10) + [DigitChar(n % 10)]
  }

  /** Python's `str(n)` for an integer. */
  function Show(n: int): (r: string)
    ensures IsToken(r) && '.' !in r
  {
    if n < 0 then "-" + NatDigits(-n) else NatDigits(n)
  }

  lemma {:induction false} DigitsValueOfNatDigits(n: nat)
    ensures DigitsValue(NatDigits(n)) == n
    decreases n
  {
    if n >= 10 {
      var s := NatDigits(n);
      assert s[..|s| - 1] == NatDigits(n / 10);
      DigitsValueOfNatDigits(n / 10);
    }
  }

  /** `int(str(n)) == n`. */
  lemma ParseIntOfShow(n: int)
    ensures ParseInt(Show(n)) == Some(n)
  {
    var t := Show(n);
    if n < 0 {
      var d := NatDigits(-n);
      assert t == "-" + d;
      assert t[0] == '-' && t[1..] == d;
      DigitsValueOfNatDigits(-n);
    } else {
      assert t == NatDigits(n);
      assert IsDigit(t[0]);
      DigitsValueOfNatDigits(n);
    }
  }
}
