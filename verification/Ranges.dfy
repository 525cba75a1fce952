/** cpp-httplib's check of a request's byte ranges, after section 14.2 of
    RFC 9110: each range is rewritten to positions, has to lie in the content,
    the starts have to ascend, and at most two ranges may reach back. */
module Ranges {

  const MAX_COUNT: nat := 1024

  // -1 stands for a position that the request left out
  datatype Range = Range(first: int, last: int)

  predicate FromHeader(r: Range) { r.first >= -1 && r.last >= -1 }

  function Rewritten(r: Range, len: nat): Range {
    var r1 := if r.first == -1 && r.last == -1 then Range(0, len) else r;
    var r2 := if r1.first == -1 then Range(len - r1.last, len - 1) else r1;
    if r2.last == -1 then Range(r2.first, len - 1) else r2
  }

  predicate Inside(r: Range, len: nat) { 0 <= r.first <= r.last < len }

  function Length(r: Range): int { r.last - r.first + 1 }

  /** Which requested ranges pass: positions in order and inside the content, a
      start inside it, or a suffix that is neither empty nor longer than it. A
      request for everything is rewritten one byte too long. */
  lemma WhichFit(r: Range, len: nat)
    requires FromHeader(r)
    ensures Inside(Rewritten(r, len), len) <==>
            if r.first != -1 && r.last != -1 then r.first <= r.last < len
            else if r.first != -1 then r.first < len
            else if r.last != -1 then 1 <= r.last <= len
            else false
    ensures Rewritten(r, len) ==
            if r.first != -1 && r.last != -1 then r
            else if r.first != -1 then Range(r.first, len - 1)
            else if r.last != -1 then Range(len - r.last, len - 1)
            else Range(0, len)
  {
  }

  // ------------------------------------------------------------ the condition over all ranges

  /** The range starts at or before the end of one that comes earlier. */
  predicate ReachesBack(rs: seq<Range>, i: nat)
    requires i < |rs|
  {
    exists j :: 0 <= j < i && rs[i].first <= rs[j].last
  }

  function ReachingBack(rs: seq<Range>): set<nat> {
    set i: nat | i < |rs| && ReachesBack(rs, i)
  }

  predicate Acceptable(rs: seq<Range>, len: nat) {
    && (forall i :: 0 <= i < |rs| ==> Inside(rs[i], len))
    && (forall i, j :: 0 <= i < j < |rs| ==> rs[i].first < rs[j].first)
    && |ReachingBack(rs)| <= 2
  }

  function TotalLength(rs: seq<Range>): int {
    if rs == [] then 0 else TotalLength(rs[..|rs| - 1]) + Length(rs[|rs| - 1])
  }

  // ------------------------------------------------------------ the check

  class Request {
    var ranges: seq<Range>

    constructor (ranges: seq<Range>)
      ensures this.ranges == ranges
    {
      this.ranges := ranges;
    }
  }

  function ContentLength(declared: nat, bodySize: nat): nat {
    if declared != 0 then declared else bodySize
  }

  /** How far the loop came: the first ranges rewritten, the others untouched. */
  predicate RewrittenUpTo(now: seq<Range>, was: seq<Range>, n: nat, len: nat) {
    && n <= |was| == |now|
    && (forall i :: 0 <= i < n ==> now[i] == Rewritten(was[i], len))
    && (forall i :: n <= i < |was| ==> now[i] == was[i])
  }

  function AllRewritten(rs: seq<Range>, len: nat): seq<Range> {
    seq(|rs|, i requires 0 <= i < |rs| => Rewritten(rs[i], len))
  }

  method RangeError(req: Request, status: int, declared: nat, bodySize: nat) returns (error: bool)
    modifies req
    ensures var was, len := old(req.ranges), if declared != 0 then declared else bodySize;
            if was == [] || !(200 <= status < 300) then !error && req.ranges == was
            else
              && (error <==> |was| > MAX_COUNT || !Acceptable(AllRewritten(was, len), len))
              && (!error ==> req.ranges == AllRewritten(was, len))
              && (|was| > MAX_COUNT ==> req.ranges == was)
              && (error && |was| <= MAX_COUNT ==>
                    exists n :: 0 < n <= |was| && RewrittenUpTo(req.ranges, was, n, len)
                      && !Acceptable(AllRewritten(was, len)[..n], len)
                      && Acceptable(AllRewritten(was, len)[..n - 1], len))
  {
    hide Acceptable, Furthest, ReachingBack, Rewritten, RewrittenUpTo, AllRewritten;
    if req.ranges != [] && 200 <= status < 300 {
      var len: int := ContentLength(declared, bodySize);
      var prevFirst, prevLast, overlapping := -1, -1, 0;
      ghost var was := req.ranges;
      ghost var whole := AllRewritten(was, len);
      Start(was, len);
      if |req.ranges| > MAX_COUNT { return true; }
      var i := 0;
      while i < |req.ranges|
        invariant 0 <= i <= |was| == |req.ranges|
        invariant RewrittenUpTo(req.ranges, was, i, len)
        invariant Acceptable(whole[..i], len)
        invariant Furthest(whole[..i], prevFirst, prevLast)
        invariant overlapping == |ReachingBack(whole[..i])|
      {
        OneRewritten(req.ranges, was, i, len);
        var r := Rewrite(req.ranges[i], len);
        req.ranges := req.ranges[i := r];
        OneMore(whole[..i], r, prevFirst, prevLast, len);
        if !(0 <= r.first <= r.last <= len - 1) || r.first <= prevFirst {
          RejectedEarly(whole, i + 1, len);
          return true;
        }
        if r.first <= prevLast {
          overlapping := overlapping + 1;
          if overlapping > 2 {
            RejectedEarly(whole, i + 1, len);
            return true;
          }
        }
        prevFirst, prevLast := Max(prevFirst, r.first), Max(prevLast, r.last);
        i := i + 1;
      }
      End(req.ranges, was, len);
    }
    error := false;
  }

  lemma Start(was: seq<Range>, len: nat)
    ensures RewrittenUpTo(was, was, 0, len)
    ensures var whole := AllRewritten(was, len);
            && |whole| == |was| && Acceptable(whole[..0], len) && Furthest(whole[..0], -1, -1)
            && ReachingBack(whole[..0]) == {}
  {
    assert ReachingBack(AllRewritten(was, len)[..0]) == {};
  }

  lemma OneRewritten(now: seq<Range>, was: seq<Range>, i: nat, len: nat)
    requires RewrittenUpTo(now, was, i, len) && i < |was|
    ensures |now| == |was| && RewrittenUpTo(now[i := Rewritten(now[i], len)], was, i + 1, len)
    ensures var whole := AllRewritten(was, len);
            |whole| == |was| && whole[..i + 1] == whole[..i] + [Rewritten(now[i], len)]
  {
  }

  lemma End(now: seq<Range>, was: seq<Range>, len: nat)
    requires RewrittenUpTo(now, was, |was|, len)
    ensures now == AllRewritten(was, len) == AllRewritten(was, len)[..|was|]
  {
  }

  method Rewrite(r: Range, len: nat) returns (r': Range)
    ensures r' == Rewritten(r, len)
  {
    var first, last := r.first, r.last;
    if first == -1 && last == -1 {
      first, last := 0, len;
    }
    if first == -1 {
      first := len - last;
      last := len - 1;
    }
    if last == -1 {
      last := len - 1;
    }
    r' := Range(first, last);
  }

  function Max(a: int, b: int): int { if a < b then b else a }

  /** The largest first and last positions so far, or -1. */
  predicate Furthest(rs: seq<Range>, first: int, last: int) {
    && first >= -1 && last >= -1
    && (forall i :: 0 <= i < |rs| ==> rs[i].first <= first && rs[i].last <= last)
    && (first >= 0 ==> exists i :: 0 <= i < |rs| && rs[i].first == first)
    && (last >= 0 ==> exists i :: 0 <= i < |rs| && rs[i].last == last)
    && (rs != [] ==> first >= 0 && last >= 0)
  }

  lemma SameReach(rs: seq<Range>, r: Range, i: nat)
    requires i < |rs|
    ensures ReachesBack(rs + [r], i) <==> ReachesBack(rs, i)
  {
    assert forall j :: 0 <= j <= i ==> (rs + [r])[j] == rs[j];
    if ReachesBack(rs + [r], i) {
      var j :| 0 <= j < i && (rs + [r])[i].first <= (rs + [r])[j].last;
      assert rs[i].first <= rs[j].last;
    }
    if ReachesBack(rs, i) {
      var j :| 0 <= j < i && rs[i].first <= rs[j].last;
      assert (rs + [r])[i].first <= (rs + [r])[j].last;
    }
  }

  lemma LastReach(rs: seq<Range>, r: Range, first: int, last: int)
    requires Furthest(rs, first, last) && r.first >= 0
    ensures ReachesBack(rs + [r], |rs|) <==> r.first <= last
  {
    var rs' := rs + [r];
    if r.first <= last {
      var j :| 0 <= j < |rs| && rs[j].last == last;
      assert rs'[|rs|].first <= rs'[j].last;
    }
  }

  lemma ReachGrows(rs: seq<Range>, r: Range, first: int, last: int)
    requires Furthest(rs, first, last) && r.first >= 0
    ensures ReachingBack(rs + [r]) == ReachingBack(rs) + (if r.first <= last then {|rs|} else {})
    ensures |ReachingBack(rs + [r])| == |ReachingBack(rs)| + if r.first <= last then 1 else 0
  {
    hide ReachesBack, Furthest;
    LastReach(rs, r, first, last);
    forall i: nat | i < |rs| ensures ReachesBack(rs + [r], i) <==> ReachesBack(rs, i) {
      SameReach(rs, r, i);
    }
    var more: set<nat> := if r.first <= last then {|rs|} else {};
    assert ReachingBack(rs + [r]) == ReachingBack(rs) + more;
    assert |rs| !in ReachingBack(rs);
  }

  lemma FurthestGrows(rs: seq<Range>, r: Range, first: int, last: int)
    requires Furthest(rs, first, last) && r.first >= 0 && r.last >= 0
    ensures Furthest(rs + [r], Max(first, r.first), Max(last, r.last))
  {
    var rs' := rs + [r];
    assert rs'[|rs|] == r && forall i :: 0 <= i < |rs| ==> rs'[i] == rs[i];
    if first >= 0 {
      var i :| 0 <= i < |rs| && rs[i].first == first;
      assert rs'[i].first == first;
    }
    if last >= 0 {
      var i :| 0 <= i < |rs| && rs[i].last == last;
      assert rs'[i].last == last;
    }
  }

  /** The loop's three tests are exactly what one range more changes. */
  lemma OneMore(rs: seq<Range>, r: Range, first: int, last: int, len: nat)
    requires Acceptable(rs, len) && Furthest(rs, first, last)
    ensures Acceptable(rs + [r], len) <==>
            && Inside(r, len) && r.first > first
            && |ReachingBack(rs)| + (if r.first <= last then 1 else 0) <= 2
    ensures r.first >= 0 ==>
      |ReachingBack(rs + [r])| == |ReachingBack(rs)| + if r.first <= last then 1 else 0
    ensures r.first >= 0 && r.last >= 0 ==> Furthest(rs + [r], Max(first, r.first), Max(last, r.last))
  {
    hide ReachingBack;
    var rs' := rs + [r];
    assert rs'[|rs|] == r && forall i :: 0 <= i < |rs| ==> rs'[i] == rs[i];
    if r.first >= 0 {
      ReachGrows(rs, r, first, last);
      if r.last >= 0 { FurthestGrows(rs, r, first, last); }
    }
    if Acceptable(rs', len) {
      assert Inside(rs'[|rs|], len);
      if first >= 0 {
        var i :| 0 <= i < |rs| && rs[i].first == first;
        assert rs'[i].first < rs'[|rs|].first;
      }
    }
  }

  /** A prefix that fails cannot be made good by later ranges. */
  lemma RejectedEarly(rs: seq<Range>, n: nat, len: nat)
    requires n <= |rs| && !Acceptable(rs[..n], len)
    ensures !Acceptable(rs, len)
  {
    if Acceptable(rs, len) {
      var front := rs[..n];
      forall i | i in ReachingBack(front) ensures i in ReachingBack(rs) {
        var j :| 0 <= j < i && front[i].first <= front[j].last;
        assert rs[i].first <= rs[j].last;
      }
      SmallerSet(ReachingBack(front), ReachingBack(rs));
      assert forall i :: 0 <= i < n ==> front[i] == rs[i];
      assert Acceptable(front, len);
    }
  }

  lemma {:induction false} SmallerSet(a: set<nat>, b: set<nat>)
    requires a <= b
    ensures |a| <= |b|
  {
    assert b == a + (b - a);
  }

  // ------------------------------------------------------------ what is served

  /** What the response is cut from the content with; the source asserts these
      preconditions. */
  function GetRangeOffsetAndLength(r: Range, len: nat): (p: (nat, nat))
    requires r.first != -1 && r.last != -1
    requires 0 <= r.first < len && r.first <= r.last < len
    ensures p.1 > 0 && p.0 + p.1 <= len
  {
    (r.first, r.last - r.first + 1)
  }

  /** What ranges that reach back may add: the first of them cannot start at 0,
      the second not at 0 or 1. */
  function Extra(c: nat, len: nat): int {
    if c == 0 then 0 else if c == 1 then len - 1 else 2 * len - 3
  }

  /** The k-th start is at least k, so the ranges that reach back are short. */
  lemma {:induction false} Budget(rs: seq<Range>, len: nat, first: int, last: int)
    requires Acceptable(rs, len) && Furthest(rs, first, last)
    ensures rs != [] ==> |ReachingBack(rs)| < |rs| <= first + 1
    ensures rs == [] ==> ReachingBack(rs) == {} && last == -1
    ensures TotalLength(rs) <= last + 1 + Extra(|ReachingBack(rs)|, len)
    decreases |rs|
  {
    if rs == [] {
      assert ReachingBack(rs) == {};
    } else {
      var n := |rs| - 1;
      var front, r := rs[..n], rs[n];
      assert rs == front + [r];
      FrontAcceptable(front, r, len);
      assert forall i :: 0 <= i < n ==> Inside(front[i], len);
      var f, l := FurthestOf(front);
      Budget(front, len, f, l);
      BudgetStep(front, r, len, f, l);
      OneMore(front, r, f, l, len);
      SameFurthest(rs, Max(f, r.first), Max(l, r.last), first, last);
    }
  }

  lemma BudgetStep(rs: seq<Range>, r: Range, len: nat, first: int, last: int)
    requires Acceptable(rs + [r], len) && Acceptable(rs, len) && Furthest(rs, first, last)
    requires if rs != [] then |ReachingBack(rs)| < |rs| <= first + 1 else |ReachingBack(rs)| == 0 && last == -1
    requires TotalLength(rs) <= last + 1 + Extra(|ReachingBack(rs)|, len)
    ensures |ReachingBack(rs + [r])| < |rs| + 1 <= r.first + 1 && first < r.first
    ensures TotalLength(rs + [r]) <= Max(last, r.last) + 1 + Extra(|ReachingBack(rs + [r])|, len)
  {
    hide *;
    Caps(rs, len, first, last);
    OneMore(rs, r, first, last, len);
    TotalSnoc(rs, r);
    InsideMeans(r, len);
    Spending(|ReachingBack(rs)|, TotalLength(rs), r, len, last);
  }

  lemma Caps(rs: seq<Range>, len: nat, first: int, last: int)
    requires Acceptable(rs, len) && Furthest(rs, first, last)
    ensures first >= -1 && last >= -1 && |ReachingBack(rs)| <= 2
  {
  }

  lemma InsideMeans(r: Range, len: nat)
    ensures Inside(r, len) ==> 0 <= r.first <= r.last < len
  {
  }

  lemma TotalSnoc(rs: seq<Range>, r: Range)
    ensures TotalLength(rs + [r]) == TotalLength(rs) + Length(r)
  {
    assert (rs + [r])[..|rs|] == rs;
  }

  lemma Spending(c: nat, spent: int, r: Range, len: nat, last: int)
    requires c <= 2 && Inside(r, len) && spent <= last + 1 + Extra(c, len)
    requires r.first <= last ==> r.first >= c + 1 && c <= 1
    ensures spent + Length(r) <= Max(last, r.last) + 1 + Extra(if r.first <= last then c + 1 else c, len)
  {
  }

  lemma Ends(rs: seq<Range>, len: nat, first: int, last: int)
    requires rs != [] && Acceptable(rs, len) && Furthest(rs, first, last)
    ensures forall i :: 0 <= i < |rs| ==> rs[i].first >= 0 && rs[i].last >= 0
    ensures last < len
  {
    var i :| 0 <= i < |rs| && rs[i].last == last;
    assert Inside(rs[i], len);
  }

  lemma FrontAcceptable(rs: seq<Range>, r: Range, len: nat)
    requires Acceptable(rs + [r], len)
    ensures Acceptable(rs, len)
  {
    hide Acceptable;
    assert (rs + [r])[..|rs|] == rs;
    if !Acceptable(rs, len) { RejectedEarly(rs + [r], |rs|, len); }
  }

  lemma SameFurthest(rs: seq<Range>, f: int, l: int, first: int, last: int)
    requires Furthest(rs, f, l) && Furthest(rs, first, last)
    ensures f == first && l == last
  {
  }

  lemma {:induction false} FurthestOf(rs: seq<Range>) returns (first: int, last: int)
    requires forall i :: 0 <= i < |rs| ==> rs[i].first >= 0 && rs[i].last >= 0
    ensures Furthest(rs, first, last)
  {
    if rs == [] {
      first, last := -1, -1;
    } else {
      var n := |rs| - 1;
      first, last := FurthestOf(rs[..n]);
      var f, l := first, last;
      first, last := Max(f, rs[n].first), Max(l, rs[n].last);
      assert first == rs[n].first || (exists i :: 0 <= i < n && rs[..n][i].first == first);
      assert last == rs[n].last || (exists i :: 0 <= i < n && rs[..n][i].last == last);
    }
  }

  /** Whatever is accepted can be served, and costs less than three times the
      content; a little less for each range that reaches back. */
  lemma AcceptedIsCheap(rs: seq<Range>, len: nat)
    requires Acceptable(rs, len)
    ensures forall i :: 0 <= i < |rs| ==>
      && rs[i].first != -1 && rs[i].last != -1
      && 0 <= rs[i].first < len && rs[i].first <= rs[i].last < len
      && GetRangeOffsetAndLength(rs[i], len) == (rs[i].first, Length(rs[i]))
    ensures TotalLength(rs) <= len + Extra(|ReachingBack(rs)|, len) <= 3 * len
  {
    forall i | 0 <= i < |rs|
      ensures rs[i].first != -1 && rs[i].last != -1
      ensures 0 <= rs[i].first < len && rs[i].first <= rs[i].last < len
      ensures GetRangeOffsetAndLength(rs[i], len) == (rs[i].first, Length(rs[i]))
    {
      assert Inside(rs[i], len);
    }
    var first, last := FurthestOf(rs);
    if rs != [] { Ends(rs, len, first, last); }
    AcceptedTotal(rs, len, first, last);
  }

  lemma AcceptedTotal(rs: seq<Range>, len: nat, first: int, last: int)
    requires Acceptable(rs, len) && Furthest(rs, first, last) && last < len
    ensures TotalLength(rs) <= len + Extra(|ReachingBack(rs)|, len) <= 3 * len
  {
    hide Acceptable, Furthest, ReachingBack, TotalLength;
    Budget(rs, len, first, last);
    NoExtraWhenEmpty(rs, len);
  }

  lemma NoExtraWhenEmpty(rs: seq<Range>, len: nat)
    requires Acceptable(rs, len)
    ensures len == 0 ==> |ReachingBack(rs)| == 0
    ensures |ReachingBack(rs)| <= 2
  {
    assert rs != [] ==> Inside(rs[0], len);
    assert rs == [] ==> ReachingBack(rs) == {};
  }

  /** The bound is met: three ranges to the end, starting at 0, 1 and 2. */
  lemma BoundIsMet(len: nat)
    requires len >= 3
    ensures var rs := [Range(0, len - 1), Range(1, len - 1), Range(2, len - 1)];
            && Acceptable(rs, len) && |ReachingBack(rs)| == 2
            && TotalLength(rs) == 3 * len - 3
            && AllRewritten([Range(0, -1), Range(1, -1), Range(2, -1)], len) == rs
  {
    var rs := [Range(0, len - 1), Range(1, len - 1), Range(2, len - 1)];
    assert rs[1].first <= rs[0].last && rs[2].first <= rs[0].last;
    assert ReachesBack(rs, 1) && ReachesBack(rs, 2) && !ReachesBack(rs, 0);
    assert ReachingBack(rs) == {1, 2};
    assert rs[..2] == [rs[0], rs[1]] && rs[..2][..1] == [rs[0]];
    assert TotalLength(rs[..2]) == len + (len - 1) by {
      assert TotalLength([rs[0]]) == len by { assert [rs[0]][..0] == []; }
    }
  }
}
