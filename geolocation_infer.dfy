/** Coordinate resolution: a project name is looked up in a fixed table
    first; only on a miss is the text-completion oracle asked, and its reply
    is read for the first two decimal numbers. An "unknown" reply, a failing
    call, or fewer than two numbers all give no coordinates. The oracle is
    outside the model: its reply is an input, `None` when the call raised. */
module Geolocation {
  import opened Wrappers
  import opened Text

  /** `[lat, lon]`, as exact values of the decimal literals. */
  type Coordinates = seq<real>

  /** The reference table the resolver is built with. */
  const DefaultLookup: map<string, Coordinates> := map[
    "Minyari Dome Project" := [-22.867, 120.712],
    "Lake Hope Project" := [-32.45, 120.15]]

  predicate IsDigit(c: char) {
    '0' <= c <= '9'
  }

  predicate IsSign(c: char) {
    c == '-' || c == '+'
  }

  /** Every character of `s[i..j]` is a digit. */
  predicate AllDigits(s: string, i: nat, j: nat)
    requires i <= j <= |s|
    decreases j - i
  {
    i == j || (IsDigit(s[i]) && AllDigits(s, i + 1, j))
  }

  lemma {:induction false} AllDigitsMeans(s: string, i: nat, j: nat)
    requires i <= j <= |s|
    ensures AllDigits(s, i, j) <==> forall k :: i <= k < j ==> IsDigit(s[k])
    decreases j - i
  {
    if i < j {
      AllDigitsMeans(s, i + 1, j);
    }
  }

  /** The end of the longest run of digits starting at `p`. */
  function DigitRunEnd(s: string, p: nat): (q: nat)
    requires p <= |s|
    ensures p <= q <= |s|
    ensures AllDigits(s, p, q)
    ensures q == |s| || !IsDigit(s[q])
    decreases |s| - p
  {
    if p < |s| && IsDigit(s[p]) then DigitRunEnd(s, p + 1) else p
  }

  /** A match of `[-+]?\d+\.\d+` in a text: where it starts, where its integer
      digits start (after the sign, if any), where its point is and where it
      ends. */
  datatype Match = Match(start: nat, digits: nat, point: nat, end: nat)

  /** `m` marks a stretch of `s` shaped like the pattern. */
  predicate WellFormedMatch(s: string, m: Match) {
    && m.start <= m.digits <= m.start + 1
    && m.digits < m.point
    && m.point + 1 < m.end <= |s|
    && (m.digits == m.start + 1 <==> IsSign(s[m.start]))
    && AllDigits(s, m.digits, m.point)
    && s[m.point] == '.'
    && AllDigits(s, m.point + 1, m.end)
  }

  /** `t` is a whole decimal literal with `k` integer digits: an optional sign,
      `k` digits, a point, and at least one more digit. */
  predicate LiteralSplit(t: string, k: nat) {
    var b := if t != [] && IsSign(t[0]) then 1 else 0;
    && 0 < k && b + k + 1 < |t|
    && (forall i :: b <= i < b + k ==> IsDigit(t[i]))
    && t[b + k] == '.'
    && (forall i :: b + k < i < |t| ==> IsDigit(t[i]))
  }

  /** `t` matches `[-+]?\d+\.\d+` as a whole. */
  ghost predicate IsDecimalLiteral(t: string) {
    exists k: nat :: LiteralSplit(t, k)
  }

  /** The match of the pattern that starts at `p`, if there is one. The sign
      and both digit runs are taken greedily; backtracking could not find a
      different match, because neither a sign nor a digit can stand where the
      point is expected. */
  function MatchAt(s: string, p: nat): (m: Option<Match>)
    requires p <= |s|
    ensures m.Some? ==> WellFormedMatch(s, m.value) && m.value.start == p
  {
    var q := if p < |s| && IsSign(s[p]) then p + 1 else p;
    var d := DigitRunEnd(s, q);
    if q < d < |s| && s[d] == '.' then
      var e := DigitRunEnd(s, d + 1);
      if d + 1 < e then Some(Match(p, q, d, e)) else None
    else None
  }

  /** What `MatchAt` finds is a decimal literal. */
  lemma MatchAtSound(s: string, p: nat)
    requires p <= |s| && MatchAt(s, p).Some?
    ensures IsDecimalLiteral(s[p..MatchAt(s, p).value.end])
  {
    var m := MatchAt(s, p).value;
    var t := s[p..m.end];
    AllDigitsMeans(s, m.digits, m.point);
    AllDigitsMeans(s, m.point + 1, m.end);
    assert forall i :: 0 <= i < |t| ==> t[i] == s[p + i];
    assert LiteralSplit(t, m.point - m.digits);
  }

  /** A run of digits from `q` to `j` is taken whole. */
  lemma RunReaches(s: string, q: nat, j: nat)
    requires q <= j <= |s|
    requires forall i :: q <= i < j ==> IsDigit(s[i])
    ensures j <= DigitRunEnd(s, q)
  {
  }

  /** The run stops at the first character that is not a digit. */
  lemma RunStops(s: string, q: nat, j: nat)
    requires q <= j < |s| && !IsDigit(s[j])
    ensures DigitRunEnd(s, q) <= j
  {
    AllDigitsMeans(s, q, DigitRunEnd(s, q));
  }

  /** `MatchAt` misses no literal starting at `p`, and its match is the
      longest one there. */
  lemma MatchAtComplete(s: string, p: nat, e: nat)
    requires p <= e <= |s| && IsDecimalLiteral(s[p..e])
    ensures MatchAt(s, p).Some? && e <= MatchAt(s, p).value.end
  {
    var k: nat :| LiteralSplit(s[p..e], k);
    LiteralInText(s, p, e, k);
    var q := if IsSign(s[p]) then p + 1 else p;
    RunReaches(s, q, q + k);
    RunStops(s, q, q + k);
    RunReaches(s, q + k + 1, e);
  }

  /** A literal read off `s[p..e]`, restated on `s` itself. */
  lemma LiteralInText(s: string, p: nat, e: nat, k: nat)
    requires p <= e <= |s| && LiteralSplit(s[p..e], k)
    ensures p < e
    ensures var q := if IsSign(s[p]) then p + 1 else p;
      && q + k + 1 < e
      && (forall i :: q <= i < q + k ==> IsDigit(s[i]))
      && s[q + k] == '.'
      && (forall i :: q + k < i < e ==> IsDigit(s[i]))
  {
    var t := s[p..e];
    assert forall i :: p <= i < e ==> s[i] == t[i - p];
  }


  /** `re.findall` from position `p`: try a match at each position; after a
      match resume at its end, otherwise one character further on. What it
      returns are stretches shaped like the pattern that lie at or after `p`
      (and, by `FindAllOrdered`, go left to right without overlapping). */
  function FindAll(s: string, p: nat): (r: seq<Match>)
    requires p <= |s|
    ensures forall i :: 0 <= i < |r| ==>
      p <= r[i].start && WellFormedMatch(s, r[i])
    decreases |s| - p
  {
    if p == |s| then []
    else
      match MatchAt(s, p)
      case Some(m) => [m] + FindAll(s, m.end)
      case None => FindAll(s, p + 1)
  }

  /** The stretches `ms` go left to right and do not overlap. */
  predicate Ordered(ms: seq<Match>) {
    forall i, j :: 0 <= i < j < |ms| ==> ms[i].end <= ms[j].start
  }

  lemma OrderedPrepend(m: Match, rest: seq<Match>)
    requires Ordered(rest)
    requires forall i :: 0 <= i < |rest| ==> m.end <= rest[i].start
    ensures Ordered([m] + rest)
  {
    var r := [m] + rest;
    forall i, j | 0 <= i < j < |r| ensures r[i].end <= r[j].start {
      assert r[j] == rest[j - 1];
      if i > 0 {
        assert r[i] == rest[i - 1];
      }
    }
  }

  /** The stretches returned go left to right and do not overlap. */
  lemma {:induction false} FindAllOrdered(s: string, p: nat)
    requires p <= |s|
    ensures Ordered(FindAll(s, p))
    decreases |s| - p
  {
    if p < |s| {
      var here := MatchAt(s, p);
      if here.Some? {
        FindAllOnMatch(s, p);
        FindAllOrdered(s, here.value.end);
        OrderedPrepend(here.value, FindAll(s, here.value.end));
      } else {
        FindAllOnMiss(s, p);
        FindAllOrdered(s, p + 1);
      }
    }
  }

  /** Each stretch returned is exactly the match the pattern makes at its start. */
  lemma {:induction false} FindAllFoundAtStart(s: string, p: nat, i: nat)
    requires p <= |s| && i < |FindAll(s, p)|
    ensures MatchAt(s, FindAll(s, p)[i].start) == Some(FindAll(s, p)[i])
    decreases |s| - p
  {
    var ms := FindAll(s, p);
    var here := MatchAt(s, p);
    if here.Some? {
      var rest := FindAll(s, here.value.end);
      assert ms == [here.value] + rest;
      if i > 0 {
        FindAllFoundAtStart(s, here.value.end, i - 1);
        assert ms[i] == rest[i - 1];
      }
    } else {
      FindAllFoundAtStart(s, p + 1, i);
    }
  }

  /** Position `q` lies inside one of the stretches `ms`. */
  predicate Covered(ms: seq<Match>, q: int) {
    exists i :: 0 <= i < |ms| && ms[i].start <= q < ms[i].end
  }

  lemma FindAllOnMatch(s: string, p: nat)
    requires p < |s| && MatchAt(s, p).Some?
    ensures FindAll(s, p) == [MatchAt(s, p).value] + FindAll(s, MatchAt(s, p).value.end)
  {
  }

  lemma FindAllOnMiss(s: string, p: nat)
    requires p < |s| && MatchAt(s, p).None?
    ensures FindAll(s, p) == FindAll(s, p + 1)
  {
  }

  /** A stretch covering `q` stays covering after more are put in front. */
  lemma CoveredPrepend(m: Match, rest: seq<Match>, q: int)
    requires Covered(rest, q)
    ensures Covered([m] + rest, q)
  {
    var j :| 0 <= j < |rest| && rest[j].start <= q < rest[j].end;
    assert ([m] + rest)[j + 1] == rest[j];
  }

  /** The scan is leftmost: every position where a match could begin lies
      inside one of the matches returned, so no number is skipped. */
  lemma {:induction false} FindAllLeftmost(s: string, p: nat, q: nat)
    requires p <= q < |s| && MatchAt(s, q).Some?
    ensures Covered(FindAll(s, p), q)
    decreases |s| - p
  {
    var here := MatchAt(s, p);
    if here.Some? {
      var m := here.value;
      FindAllOnMatch(s, p);
      if q < m.end {
        assert ([m] + FindAll(s, m.end))[0] == m;
      } else {
        FindAllLeftmost(s, m.end, q);
        CoveredPrepend(m, FindAll(s, m.end), q);
      }
    } else {
      assert p < q;
      FindAllOnMiss(s, p);
      FindAllLeftmost(s, p + 1, q);
    }
  }

  /** Every match contains a point, so a text without one has no matches. */
  lemma {:induction false} NoPointNoMatches(s: string, p: nat)
    requires p <= |s|
    requires forall i :: 0 <= i < |s| ==> s[i] != '.'
    ensures FindAll(s, p) == []
    decreases |s| - p
  {
    if p < |s| {
      assert MatchAt(s, p).None?;
      NoPointNoMatches(s, p + 1);
    }
  }

  /** The value of a string of decimal digits. */
  function DigitsValue(ds: string): nat
    requires forall i :: 0 <= i < |ds| ==> IsDigit(ds[i])
  {
    if ds == [] then 0
    else
      var c := ds[|ds| - 1];
      assert IsDigit(c);
      10 * DigitsValue(ds[..|ds| - 1]) + (c as int - '0' as int)
  }

  function Pow10(k: nat): (r: nat)
    ensures r >= 1
  {
    if k == 0 then 1 else 10 * Pow10(k - 1)
  }

  /** `k` digits spell a number below `10^k`. */
  lemma {:induction false} DigitsBelow(ds: string)
    requires forall i :: 0 <= i < |ds| ==> IsDigit(ds[i])
    ensures DigitsValue(ds) < Pow10(|ds|)
  {
    if ds != [] {
      var init := ds[..|ds| - 1];
      assert forall i :: 0 <= i < |init| ==> init[i] == ds[i];
      DigitsBelow(init);
    }
  }

  /** `x` divided by ten `k` times: the value of `k` fraction digits read as an integer `x`. */
  function Shift(x: real, k: nat): real
  {
    if k == 0 then x else Shift(x, k - 1) / 10.0
  }

  lemma {:induction false} ShiftIsQuotient(x: real, k: nat)
    ensures Shift(x, k) == x / (Pow10(k) as real)
  {
    if k > 0 {
      ShiftIsQuotient(x, k - 1);
      var p := Pow10(k - 1) as real;
      assert Pow10(k) as real == 10.0 * p;
      assert (x / p) / 10.0 == x / (10.0 * p);
    }
  }

  lemma QuotientBelowOne(x: real, p: real)
    requires 0.0 <= x < p
    ensures 0.0 <= x / p < 1.0
  {
    assert (x / p) * p == x;
  }

  /** The match has a leading minus sign. */
  predicate IsNegative(s: string, m: Match)
    requires WellFormedMatch(s, m)
  {
    m.digits > m.start && s[m.start] == '-'
  }

  /** The value of the digits before the point. */
  function WholePart(s: string, m: Match): nat
    requires WellFormedMatch(s, m)
  {
    AllDigitsMeans(s, m.digits, m.point);
    DigitsValue(s[m.digits..m.point])
  }

  /** The exact value of the matched literal, what `float(...)` approximates:
      its magnitude has the digits before the point as its integer part and
      the digits after it as its fraction, and its sign is the literal's. */
  function LiteralValue(s: string, m: Match): (r: real)
    requires WellFormedMatch(s, m)
    ensures var w := WholePart(s, m) as real;
      if IsNegative(s, m) then -(w + 1.0) < r <= -w else w <= r < w + 1.0
  {
    AllDigitsMeans(s, m.digits, m.point);
    AllDigitsMeans(s, m.point + 1, m.end);
    var digits := s[m.point + 1..m.end];
    DigitsBelow(digits);
    ShiftIsQuotient(DigitsValue(digits) as real, |digits|);
    QuotientBelowOne(DigitsValue(digits) as real, Pow10(|digits|) as real);
    var whole := DigitsValue(s[m.digits..m.point]) as real;
    var fraction := Shift(DigitsValue(digits) as real, m.end - m.point - 1);
    if m.digits > m.start && s[m.start] == '-' then -(whole + fraction) else whole + fraction
  }

  /** Reading digits `a` then digits `b` is reading `a`, shifted past `b`, plus `b`. */
  lemma {:induction false} DigitsConcat(a: string, b: string)
    requires forall i :: 0 <= i < |a| ==> IsDigit(a[i])
    requires forall i :: 0 <= i < |b| ==> IsDigit(b[i])
    ensures forall i :: 0 <= i < |a + b| ==> IsDigit((a + b)[i])
    ensures DigitsValue(a + b) == DigitsValue(a) * Pow10(|b|) + DigitsValue(b)
    decreases |b|
  {
    if b != [] {
      var init := b[..|b| - 1];
      assert (a + b)[..|a + b| - 1] == a + init;
      assert (a + b)[|a + b| - 1] == b[|b| - 1];
      DigitsConcat(a, init);
      var d := b[|b| - 1] as int - '0' as int;
      assert DigitsValue(b) == 10 * DigitsValue(init) + d;
      assert DigitsValue(a + b) == 10 * DigitsValue(a + init) + d;
      assert Pow10(|b|) == 10 * Pow10(|init|);
      ScaleSum(DigitsValue(a), Pow10(|init|), DigitsValue(init), d);
    } else {
      assert a + b == a;
    }
  }

  lemma ScaleSum(x: int, p: int, y: int, d: int)
    ensures 10 * (x * p + y) + d == x * (10 * p) + (10 * y + d)
  {
  }

  /** A whole number plus a fraction over `p` is one numerator over `p`. */
  lemma AddQuotient(w: nat, v: nat, p: nat)
    requires p > 0
    ensures w as real + v as real / p as real == (w * p + v) as real / p as real
  {
    assert (w * p + v) as real == w as real * p as real + v as real;
  }

  /** The literal read the schoolbook way: all its digits with the point
      dropped, as one integer over ten to the number of fraction digits,
      negated when the literal starts with `-`. */
  function DecimalReading(s: string, m: Match): real
    requires WellFormedMatch(s, m)
  {
    AllDigitsMeans(s, m.digits, m.point);
    AllDigitsMeans(s, m.point + 1, m.end);
    var a := s[m.digits..m.point];
    var b := s[m.point + 1..m.end];
    DigitsConcat(a, b);
    var magnitude := DigitsValue(a + b) as real / (Pow10(|b|) as real);
    if IsNegative(s, m) then -magnitude else magnitude
  }

  /** The value of a literal is its decimal reading: the fraction is the
      digits after the point at their places, leading zeros included. */
  lemma LiteralValueIsDecimal(s: string, m: Match)
    requires WellFormedMatch(s, m)
    ensures LiteralValue(s, m) == DecimalReading(s, m)
  {
    AllDigitsMeans(s, m.digits, m.point);
    AllDigitsMeans(s, m.point + 1, m.end);
    var a := s[m.digits..m.point];
    var b := s[m.point + 1..m.end];
    DigitsConcat(a, b);
    ShiftIsQuotient(DigitsValue(b) as real, |b|);
    AddQuotient(DigitsValue(a), DigitsValue(b), Pow10(|b|));
  }

  /** `extract_coordinates_from_text`: the first two numbers of the text as
      `[lat, lon]`, or nothing when there are fewer than two. */
  function ExtractCoordinatesFromText(text: string): (r: Option<Coordinates>)
    ensures r.Some? <==> |FindAll(text, 0)| >= 2
    ensures r.Some? ==> r.value == [LiteralValue(text, FindAll(text, 0)[0]), LiteralValue(text, FindAll(text, 0)[1])]
  {
    var matches := FindAll(text, 0);
    if |matches| >= 2 then
      Some([LiteralValue(text, matches[0]), LiteralValue(text, matches[1])])
    else None
  }

  /** Bare integers are not numbers here: text without a point gives nothing. */
  lemma BareIntegersGiveNothing(text: string)
    requires forall i :: 0 <= i < |text| ==> text[i] != '.'
    ensures ExtractCoordinatesFromText(text) == None
  {
    NoPointNoMatches(text, 0);
  }

  /** A match begins with its sign or its first digit. */
  lemma MatchStartsWithDigitOrSign(s: string, m: Match)
    requires WellFormedMatch(s, m)
    ensures IsDigit(s[m.start]) || IsSign(s[m.start])
  {
    if m.digits == m.start {
      assert m.digits <= m.digits < m.point;
    }
  }

  /** A position holding neither a digit nor a sign cannot start a match, so
      the scan passes over it. */
  lemma FindAllSkipsOne(s: string, p: nat)
    requires p < |s| && !IsDigit(s[p]) && !IsSign(s[p])
    ensures FindAll(s, p) == FindAll(s, p + 1)
  {
    var here := MatchAt(s, p);
    if here.Some? {
      MatchStartsWithDigitOrSign(s, here.value);
    }
    FindAllOnMiss(s, p);
  }

  lemma SampleReplyFirstMatch(s: string)
    requires s == "-22.867, 120.712"
    ensures MatchAt(s, 0) == Some(Match(0, 1, 3, 7))
  {
    assert s[0] == '-' && s[1] == '2' && s[2] == '2' && s[3] == '.';
    assert s[4] == '8' && s[5] == '6' && s[6] == '7' && s[7] == ',';
    assert DigitRunEnd(s, 3) == 3 && DigitRunEnd(s, 2) == 3 && DigitRunEnd(s, 1) == 3;
    assert DigitRunEnd(s, 7) == 7 && DigitRunEnd(s, 6) == 7;
    assert DigitRunEnd(s, 5) == 7 && DigitRunEnd(s, 4) == 7;
  }

  lemma SampleReplySecondMatch(s: string)
    requires s == "-22.867, 120.712"
    ensures MatchAt(s, 9) == Some(Match(9, 9, 12, 16))
  {
    assert s[9] == '1' && s[10] == '2' && s[11] == '0' && s[12] == '.';
    assert s[13] == '7' && s[14] == '1' && s[15] == '2' && |s| == 16;
    assert DigitRunEnd(s, 12) == 12 && DigitRunEnd(s, 11) == 12;
    assert DigitRunEnd(s, 10) == 12 && DigitRunEnd(s, 9) == 12;
    assert DigitRunEnd(s, 16) == 16 && DigitRunEnd(s, 15) == 16;
    assert DigitRunEnd(s, 14) == 16 && DigitRunEnd(s, 13) == 16;
  }

  lemma SampleReplyScan(s: string)
    requires s == "-22.867, 120.712"
    ensures FindAll(s, 0) == [Match(0, 1, 3, 7), Match(9, 9, 12, 16)]
  {
    SampleReplyFirstMatch(s);
    SampleReplySecondMatch(s);
    assert s[7] == ',' && s[8] == ' ';
    FindAllSkipsOne(s, 7);
    FindAllSkipsOne(s, 8);
    assert FindAll(s, 9) == [Match(9, 9, 12, 16)] + FindAll(s, 16);
    assert FindAll(s, 0) == [Match(0, 1, 3, 7)] + FindAll(s, 7);
  }

  lemma SampleReplyDigits()
    ensures DigitsValue("-22.867, 120.712"[1..3]) == 22 && DigitsValue("-22.867, 120.712"[4..7]) == 867
    ensures DigitsValue("-22.867, 120.712"[9..12]) == 120 && DigitsValue("-22.867, 120.712"[13..16]) == 712
  {
    assert "-22.867, 120.712"[1..3] == "22" && "22"[..1] == "2";
    assert "-22.867, 120.712"[4..7] == "867" && "867"[..2] == "86" && "86"[..1] == "8";
    assert "-22.867, 120.712"[9..12] == "120" && "120"[..2] == "12" && "12"[..1] == "1";
    assert "-22.867, 120.712"[13..16] == "712" && "712"[..2] == "71" && "71"[..1] == "7";
  }

  /** A typical answer is read as the exact pair it spells, sign included. */
  lemma SampleReplyCoordinates()
    ensures ExtractCoordinatesFromText("-22.867, 120.712") == Some([-22.867, 120.712])
  {
    SampleReplyScan("-22.867, 120.712");
    SampleReplyDigits();
    assert Shift(867.0, 3) == 0.867;
    assert Shift(712.0, 3) == 0.712;
  }

  lemma HedgedReplyPrefix(s: string)
    requires s == "Unknown 1.5 2.5"
    ensures FindAll(s, 0) == FindAll(s, 8)
  {
    HedgedReplyPrefixFront(s);
    assert s[4] == 'o' && s[5] == 'w' && s[6] == 'n' && s[7] == ' ';
    FindAllSkipsOne(s, 4);
    FindAllSkipsOne(s, 5);
    FindAllSkipsOne(s, 6);
    FindAllSkipsOne(s, 7);
  }

  lemma HedgedReplyPrefixFront(s: string)
    requires s == "Unknown 1.5 2.5"
    ensures FindAll(s, 0) == FindAll(s, 4)
  {
    assert s[0] == 'U' && s[1] == 'n' && s[2] == 'k' && s[3] == 'n';
    FindAllSkipsOne(s, 0);
    FindAllSkipsOne(s, 1);
    FindAllSkipsOne(s, 2);
    FindAllSkipsOne(s, 3);
  }

  lemma HedgedReplyMatches(s: string)
    requires s == "Unknown 1.5 2.5"
    ensures |FindAll(s, 0)| == 2
  {
    assert DigitRunEnd(s, 8) == 9 && DigitRunEnd(s, 10) == 11;
    assert MatchAt(s, 8) == Some(Match(8, 8, 9, 11));
    assert DigitRunEnd(s, 12) == 13 && DigitRunEnd(s, 14) == 15;
    assert MatchAt(s, 12) == Some(Match(12, 12, 13, 15));
    HedgedReplyPrefix(s);
    assert s[11] == ' ';
    FindAllSkipsOne(s, 11);
    assert FindAll(s, 12) == [Match(12, 12, 13, 15)] + FindAll(s, 15);
    assert FindAll(s, 8) == [Match(8, 8, 9, 11)] + FindAll(s, 11);
  }

  lemma HedgedReplyUnpadded(s: string)
    requires s == "Unknown 1.5 2.5"
    ensures Strip(s) == s
  {
    assert s[0] == 'U' && s[|s| - 1] == '5';
    StripUnpadded(s);
  }

  lemma HedgedReplyLowered(s: string)
    requires s == "Unknown 1.5 2.5"
    ensures LowerAscii(s)[..7] == "unknown"
  {
    var r := LowerAscii(s);
    assert r[0] == 'u' && r[1] == 'n' && r[2] == 'k' && r[3] == 'n';
    assert r[4] == 'o' && r[5] == 'w' && r[6] == 'n';
  }

  lemma HedgedReplySaysUnknown(s: string)
    requires s == "Unknown 1.5 2.5"
    ensures exists i :: OccursAt(LowerAscii(Strip(s)), "unknown", i)
  {
    HedgedReplyUnpadded(s);
    HedgedReplyLowered(s);
    var t := LowerAscii(s);
    assert t[0..7] == t[..7] == "unknown";
    assert OccursAt(t, "unknown", 0);
  }

  /** What is made of the oracle's answer: stripped, refused when it says
      "unknown" in any letter case, otherwise read for two numbers. The first
      clause follows from the second and is kept as the refusal rule in its own words. */
  function ReadReply(raw: string): (r: Option<Coordinates>)
    ensures Contains(LowerAscii(Strip(raw)), "unknown") ==> r == None
    ensures r.Some? <==> !Contains(LowerAscii(Strip(raw)), "unknown") && |FindAll(Strip(raw), 0)| >= 2
    ensures r.Some? ==> r.value == [LiteralValue(Strip(raw), FindAll(Strip(raw), 0)[0]),
                                    LiteralValue(Strip(raw), FindAll(Strip(raw), 0)[1])]
  {
    var text := Strip(raw);
    var refused := Contains(LowerAscii(text), "unknown");
    var found := ExtractCoordinatesFromText(text);
    if refused then None else found
  }

  /** Every value of the table is a `[lat, lon]` pair. */
  predicate PairTable(lookup: map<string, Coordinates>) {
    forall name :: name in lookup ==> |lookup[name]| == 2
  }

  /** The resolver. Its settings never change after construction. */
  class GeolocationInfer {
    const llmEnabled: bool
    /** The oracle client was created: the LLM is enabled and an API key was found. */
    const modelReady: bool
    const projectLookup: map<string, Coordinates>

    /** The key comes from the environment (`None` when the variable is unset);
        an empty key counts as missing. */
    constructor (llmEnabled: bool, apiKey: Option<string>)
      ensures this.llmEnabled == llmEnabled
      ensures modelReady == (llmEnabled && apiKey.Some? && apiKey.value != "")
      ensures projectLookup == DefaultLookup
    {
      this.llmEnabled := llmEnabled;
      this.modelReady := llmEnabled && apiKey.Some? && apiKey.value != "";
      this.projectLookup := DefaultLookup;
    }

    /** The table has a non-empty entry under exactly this name. */
    predicate LookupHit(projectName: string) {
      projectName in projectLookup && projectLookup[projectName] != []
    }

    /** `infer_coordinates`. `context` only enters the prompt, and what the
        oracle makes of the prompt is `reply`. The oracle is asked only when
        the LLM is enabled; if it is enabled without a key, the source fails
        reading the unset client, which callers must avoid. */
    function InferCoordinates(projectName: string, context: string, reply: Option<string>): (r: Option<Coordinates>)
      requires LookupHit(projectName) || !llmEnabled || modelReady
      ensures LookupHit(projectName) ==> r == Some(projectLookup[projectName])
      ensures !LookupHit(projectName) && !llmEnabled ==> r == None
      ensures !LookupHit(projectName) && reply.None? ==> r == None
      ensures !LookupHit(projectName) && llmEnabled && reply.Some? ==> r == ReadReply(reply.value)
    {
      if LookupHit(projectName) then Some(projectLookup[projectName])
      else if llmEnabled && modelReady then
        match reply
        case None => None
        case Some(raw) => ReadReply(raw)
      else None
    }
  }

  /** A table hit is returned as it is and the oracle's reply plays no part. */
  lemma LookupHitSkipsOracle(g: GeolocationInfer, projectName: string, context: string, reply: Option<string>)
    requires g.LookupHit(projectName)
    ensures g.InferCoordinates(projectName, context, reply) == Some(g.projectLookup[projectName])
  {
  }

  /** On a miss with the LLM disabled there are no coordinates, whatever the oracle would say. */
  lemma DisabledMissGivesNothing(g: GeolocationInfer, projectName: string, context: string, reply: Option<string>)
    requires !g.llmEnabled && !g.LookupHit(projectName)
    ensures g.InferCoordinates(projectName, context, reply) == None
  {
  }

  /** A raising oracle call gives no coordinates and nothing propagates. */
  lemma FailedCallGivesNothing(g: GeolocationInfer, projectName: string, context: string)
    requires !g.LookupHit(projectName) && (!g.llmEnabled || g.modelReady)
    ensures g.InferCoordinates(projectName, context, None) == None
  {
  }

  /** A reply mentioning "unknown" in any letter case gives no coordinates,
      even when it also holds numbers. */
  lemma UnknownReplyGivesNothing(g: GeolocationInfer, projectName: string, context: string, raw: string)
    requires !g.LookupHit(projectName) && (!g.llmEnabled || g.modelReady)
    requires exists i :: OccursAt(LowerAscii(Strip(raw)), "unknown", i)
    ensures g.InferCoordinates(projectName, context, Some(raw)) == None
  {
  }

  /** Any other reply is read for its first two numbers. */
  lemma ReplyParsed(g: GeolocationInfer, projectName: string, context: string, raw: string)
    requires !g.LookupHit(projectName) && g.llmEnabled && g.modelReady
    requires forall i :: !OccursAt(LowerAscii(Strip(raw)), "unknown", i)
    ensures g.InferCoordinates(projectName, context, Some(raw)) == ExtractCoordinatesFromText(Strip(raw))
  {
    assert !Contains(LowerAscii(Strip(raw)), "unknown");
  }

  /** With a table of pairs, the result is either nothing or a full pair, never partial. */
  lemma ResultIsPairOrNothing(g: GeolocationInfer, projectName: string, context: string, reply: Option<string>)
    requires PairTable(g.projectLookup)
    requires g.LookupHit(projectName) || !g.llmEnabled || g.modelReady
    ensures var r := g.InferCoordinates(projectName, context, reply); r.None? || |r.value| == 2
  {
  }

  /** The built-in table holds pairs only. */
  lemma DefaultLookupIsPairTable()
    ensures PairTable(DefaultLookup)
  {
  }

  /** The lookup is exact and case-sensitive: the table's own spelling hits,
      the same name in lower case misses. */
  lemma LookupIsCaseSensitive(g: GeolocationInfer, context: string, reply: Option<string>)
    requires g.projectLookup == DefaultLookup
    ensures g.LookupHit("Minyari Dome Project") && !g.LookupHit("minyari dome project")
    ensures g.InferCoordinates("Minyari Dome Project", context, reply) == Some([-22.867, 120.712])
    ensures !g.llmEnabled ==> g.InferCoordinates("minyari dome project", context, reply) == None
  {
    assert "minyari dome project" != "Minyari Dome Project";
    assert "minyari dome project" != "Lake Hope Project";
  }

  /** "Unknown" wins over numbers: a reply that says it and still holds two
      numbers gives no coordinates. */
  lemma UnknownOverridesNumbers(g: GeolocationInfer, projectName: string, context: string, raw: string)
    requires !g.LookupHit(projectName) && g.llmEnabled && g.modelReady
    requires raw == "Unknown 1.5 2.5"
    ensures ExtractCoordinatesFromText(raw).Some?
    ensures g.InferCoordinates(projectName, context, Some(raw)) == None
  {
    HedgedReplyMatches(raw);
    HedgedReplySaysUnknown(raw);
    UnknownReplyGivesNothing(g, projectName, context, raw);
  }
}
