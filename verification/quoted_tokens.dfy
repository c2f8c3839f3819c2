/** The global regular expression `'([^']+)'`, as `String.prototype.matchAll`
    runs it: a quote, one or more characters other than a quote (the captured
    group), and a closing quote; matches are reported leftmost first and do
    not overlap, the search resuming just after the previous match. */
module QuotedTokens {
  import opened Results
  import Text
  import Seqs

  const Quote: char := '\''

  /** One match, by the indices of its opening and closing quotes. */
  datatype Span = Span(open: nat, close: nat)

  /** The pattern matches `s` at `m.open` and its closing quote is at `m.close`:
      the group `[^']+` is `s[m.open + 1..m.close]`. */
  predicate IsMatch(s: string, m: Span)
  {
    && m.open + 1 < m.close < |s|
    && s[m.open] == Quote && s[m.close] == Quote
    && Quote !in s[m.open + 1..m.close]
  }

  /** Some match of the pattern begins at index `p`. */
  ghost predicate StartsMatch(s: string, p: nat)
  {
    exists c: nat :: IsMatch(s, Span(p, c))
  }

  /** No match begins at an index in `[lo, hi)`. */
  ghost predicate NoMatchBetween(s: string, lo: nat, hi: nat)
  {
    forall p: nat :: lo <= p < hi ==> !StartsMatch(s, p)
  }

  /** `sp` is what a global search of `s` reports from index `from` on: every
      span is the leftmost match at or after the index where the search
      resumed, and after the last one no match is left. */
  ghost predicate LeftmostMatches(s: string, from: nat, sp: seq<Span>)
    decreases |sp|
  {
    if |sp| == 0 then NoMatchBetween(s, from, |s|)
    else
      && from <= sp[0].open
      && IsMatch(s, sp[0])
      && NoMatchBetween(s, from, sp[0].open)
      && LeftmostMatches(s, sp[0].close + 1, sp[1..])
  }

  /** Every span of a leftmost-match list is a match at or after the index
      the search started from. */
  lemma {:induction false} LeftmostAreMatches(s: string, from: nat, sp: seq<Span>)
    requires LeftmostMatches(s, from, sp)
    ensures forall k :: 0 <= k < |sp| ==> from <= sp[k].open && IsMatch(s, sp[k])
    decreases |sp|
  {
    if |sp| > 0 {
      LeftmostAreMatches(s, sp[0].close + 1, sp[1..]);
      assert forall k :: 1 <= k < |sp| ==> sp[k] == sp[1..][k - 1];
    }
  }

  /** A match is determined by where it begins: the group cannot stop short
      of the next quote, nor run past it. */
  lemma MatchUnique(s: string, p: nat, c1: nat, c2: nat)
    requires IsMatch(s, Span(p, c1)) && IsMatch(s, Span(p, c2))
    ensures c1 == c2
  {
  }

  /** The closing quote of the match beginning at `p`, if one does: the next
      quote after `p`, provided at least one character lies between. */
  function MatchEnd(s: string, p: nat): (r: Option<nat>)
    ensures r.Some? <==> StartsMatch(s, p)
    ensures r.Some? ==> IsMatch(s, Span(p, r.value))
  {
    if p < |s| && s[p] == Quote then
      match Text.IndexOf(s, [Quote], p + 1)
      case Some(c) =>
        Text.OccursAtSingle(s, Quote);
        if p + 1 < c then
          assert IsMatch(s, Span(p, c));
          Some(c)
        else
          assert s[p + 1] == Quote;
          None
      case None =>
        Text.OccursAtSingle(s, Quote);
        None
    else None
  }

  /** The matches of a global search of `s` resuming at `from`: on a failed
      attempt the search moves on by one character, after a match it resumes
      just past the closing quote. */
  function Scan(s: string, from: nat): (r: seq<Span>)
    ensures forall k :: 0 <= k < |r| ==> from <= r[k].open && IsMatch(s, r[k])
    decreases |s| - from
  {
    if from >= |s| then []
    else
      match MatchEnd(s, from)
      case Some(c) => [Span(from, c)] + Scan(s, c + 1)
      case None => Scan(s, from + 1)
  }

  /** Where a match begins, the scan reports it and resumes after it. */
  lemma ScanAtMatch(s: string, from: nat, c: nat)
    requires IsMatch(s, Span(from, c))
    ensures Scan(s, from) == [Span(from, c)] + Scan(s, c + 1)
  {
    MatchEndFinds(s, from, c);
    ScanFound(s, from);
  }

  /** `MatchEnd` finds the closing quote of any match that begins at `p`. */
  lemma MatchEndFinds(s: string, p: nat, c: nat)
    requires IsMatch(s, Span(p, c))
    ensures MatchEnd(s, p) == Some(c)
  {
    assert StartsMatch(s, p);
    MatchUnique(s, p, c, MatchEnd(s, p).value);
  }

  /** Where `MatchEnd` finds a closing quote, the scan reports that match and
      resumes after it. */
  lemma ScanFound(s: string, from: nat)
    requires MatchEnd(s, from).Some?
    ensures Scan(s, from) == [Span(from, MatchEnd(s, from).value)] + Scan(s, MatchEnd(s, from).value + 1)
  {
  }

  /** Where no match begins, the scan moves on by one character. */
  lemma ScanPassesOver(s: string, from: nat)
    requires from < |s| && !StartsMatch(s, from)
    ensures Scan(s, from) == Scan(s, from + 1)
  {
  }

  /** The scan reports exactly the leftmost, non-overlapping matches. */
  lemma {:induction false} ScanIsLeftmost(s: string, from: nat)
    ensures LeftmostMatches(s, from, Scan(s, from))
    decreases |s| - from
  {
    if from < |s| {
      if StartsMatch(s, from) {
        var c: nat :| IsMatch(s, Span(from, c));
        ScanAtMatch(s, from, c);
        ScanIsLeftmost(s, c + 1);
        LeftmostCons(s, from, c, Scan(s, c + 1));
      } else {
        ScanPassesOver(s, from);
        ScanIsLeftmost(s, from + 1);
        LeftmostSkip(s, from, Scan(s, from + 1));
      }
    }
  }

  /** A match followed by the search resumed after it is a search from the
      match's opening quote. */
  lemma LeftmostCons(s: string, from: nat, c: nat, rest: seq<Span>)
    requires IsMatch(s, Span(from, c))
    requires LeftmostMatches(s, c + 1, rest)
    ensures LeftmostMatches(s, from, [Span(from, c)] + rest)
  {
    assert ([Span(from, c)] + rest)[1..] == rest;
    assert NoMatchBetween(s, from, from);
  }

  /** An index where no match begins can be added in front of a search. */
  lemma LeftmostSkip(s: string, from: nat, sp: seq<Span>)
    requires !StartsMatch(s, from)
    requires LeftmostMatches(s, from + 1, sp)
    ensures LeftmostMatches(s, from, sp)
  {
  }

  /** Where a match begins, the search reports it. */
  lemma LeftmostTakesMatch(s: string, from: nat, sp: seq<Span>, c: nat)
    requires LeftmostMatches(s, from, sp)
    requires IsMatch(s, Span(from, c))
    ensures |sp| > 0 && sp[0] == Span(from, c)
    ensures LeftmostMatches(s, c + 1, sp[1..])
  {
    assert StartsMatch(s, from);
    assert |sp| > 0;
    assert sp[0].open == from;
    MatchUnique(s, from, c, sp[0].close);
  }

  /** Where no match begins, the search moves on by one character. */
  lemma LeftmostPassesOver(s: string, from: nat, sp: seq<Span>)
    requires LeftmostMatches(s, from, sp)
    requires !StartsMatch(s, from)
    ensures LeftmostMatches(s, from + 1, sp)
  {
    if |sp| > 0 {
      assert StartsMatch(s, sp[0].open);
    }
  }

  /** At most one list of spans meets the leftmost-match description. */
  lemma {:induction false} LeftmostDeterministic(s: string, from: nat, a: seq<Span>, b: seq<Span>)
    requires LeftmostMatches(s, from, a)
    requires LeftmostMatches(s, from, b)
    ensures a == b
    decreases |s| - from
  {
    if from >= |s| {
      LeftmostPastEnd(s, from, a);
      LeftmostPastEnd(s, from, b);
    } else if StartsMatch(s, from) {
      var c: nat :| IsMatch(s, Span(from, c));
      LeftmostTakesMatch(s, from, a, c);
      LeftmostTakesMatch(s, from, b, c);
      LeftmostDeterministic(s, c + 1, a[1..], b[1..]);
      Seqs.SplitFirst(a, Span(from, c), b[1..]);
      Seqs.SplitFirst(b, Span(from, c), b[1..]);
    } else {
      LeftmostPassesOver(s, from, a);
      LeftmostPassesOver(s, from, b);
      LeftmostDeterministic(s, from + 1, a, b);
    }
  }

  /** Any list of spans meeting the leftmost-match description is the one the
      scan computes. */
  lemma LeftmostUnique(s: string, from: nat, sp: seq<Span>)
    requires LeftmostMatches(s, from, sp)
    ensures sp == Scan(s, from)
  {
    ScanIsLeftmost(s, from);
    LeftmostDeterministic(s, from, sp, Scan(s, from));
  }

  /** Past the end of the text a search finds nothing. */
  lemma LeftmostPastEnd(s: string, from: nat, sp: seq<Span>)
    requires LeftmostMatches(s, from, sp)
    requires |s| <= from
    ensures sp == []
  {
  }

  /** The captured group `[^']+` of a match: the text strictly between its
      quotes. */
  function Group(s: string, m: Span): (g: string)
    requires IsMatch(s, m)
    ensures |g| > 0 && Quote !in g
  {
    s[m.open + 1..m.close]
  }

  /** The captured groups of the given matches, in order. */
  function Captures(s: string, sp: seq<Span>): (r: seq<string>)
    requires forall k :: 0 <= k < |sp| ==> IsMatch(s, sp[k])
    ensures |r| == |sp|
    ensures forall k :: 0 <= k < |r| ==> IsMatch(s, sp[k]) && r[k] == Group(s, sp[k])
    ensures forall k :: 0 <= k < |r| ==> |r[k]| > 0 && Quote !in r[k]
  {
    if |sp| == 0 then []
    else
      assert IsMatch(s, sp[0]);
      var tail := sp[1..];
      assert forall k :: 0 <= k < |tail| ==> tail[k] == sp[k + 1];
      [Group(s, sp[0])] + Captures(s, tail)
  }

  /** `[...s.matchAll(/'([^']+)'/g)].map((m) => m[1])`. */
  function Tokens(s: string): (r: seq<string>)
    ensures forall k :: 0 <= k < |r| ==> |r[k]| > 0 && Quote !in r[k]
  {
    Captures(s, Scan(s, 0))
  }

  /** An empty literal `''` is not a match, and the search retried one
      character later pairs its second quote with the next literal's opening
      quote: in `'', 'B'` the only group is the separator `, `, and `B` is
      lost. */
  lemma EmptyLiteralShiftsPairing()
    ensures Tokens("'', 'B'") == [", "]
  {
    var s := "'', 'B'";
    assert s[1] == Quote && s[4] == Quote;
    assert MatchEnd(s, 0).None?;
    ScanPassesOver(s, 0);
    assert IsMatch(s, Span(1, 4));
    ScanAtMatch(s, 1, 4);
    assert MatchEnd(s, 5).None?;
    ScanPassesOver(s, 5);
    assert MatchEnd(s, 6).None?;
    ScanPassesOver(s, 6);
    assert Scan(s, 0) == [Span(1, 4)];
    assert s[2] == ',' && s[3] == ' ';
    assert s[2..4] == ", ";
  }
}
