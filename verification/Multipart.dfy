/** The body state of cpp-httplib's multipart parser: a search for CRLF, dashes
    and boundary in a window that is compacted, extended and consumed as chunks
    arrive. However the stream is cut, the same bytes are delivered. */
module Multipart {
  import opened Common

  type Bytes = seq<bv8>

  // ------------------------------------------------------------ searching

  predicate OccursAt(w: Bytes, mark: Bytes, i: nat) {
    i + |mark| <= |w| && w[i..i + |mark|] == mark
  }

  /** Where `mark` first occurs, or the length of `w` if it does not. */
  function FirstIndex(w: Bytes, mark: Bytes): (i: nat)
    ensures i <= |w|
  {
    if |w| < |mark| || w == [] then |w|
    else if mark <= w then 0
    else 1 + FirstIndex(w[1..], mark)
  }

  lemma {:induction false} FirstIndexIsFirst(w: Bytes, mark: Bytes)
    requires mark != []
    ensures var i := FirstIndex(w, mark);
            && (i < |w| ==> OccursAt(w, mark, i))
            && (i < |w| ==> forall j :: 0 <= j < i ==> !OccursAt(w, mark, j))
            && (i == |w| ==> forall j :: 0 <= j ==> !OccursAt(w, mark, j))
    decreases |w|
  {
    if |w| >= |mark| && !(mark <= w) {
      FirstIndexIsFirst(w[1..], mark);
      forall j | 0 < j ensures OccursAt(w, mark, j) <==> OccursAt(w[1..], mark, j - 1) {
        if j + |mark| <= |w| {
          assert w[1..][j - 1..j - 1 + |mark|] == w[j..j + |mark|];
        }
      }
    } else if |w| >= |mark| {
      assert w[0..|mark|] == mark;
    }
  }

  /** The search may start past any stretch where the mark does not begin. */
  lemma {:induction false} SkipFront(w: Bytes, mark: Bytes, k: nat)
    requires mark != [] && k <= |w| && forall i :: 0 <= i < k ==> !OccursAt(w, mark, i)
    ensures FirstIndex(w, mark) == k + FirstIndex(w[k..], mark)
    decreases k
  {
    if k == 0 {
      assert w[0..] == w;
    } else if |w| >= |mark| {
      assert !OccursAt(w, mark, 0);
      assert w[0..|mark|] == w[..|mark|];
      forall i | 0 <= i < k - 1 ensures !OccursAt(w[1..], mark, i) {
        assert !OccursAt(w, mark, i + 1);
        if i + |mark| <= |w[1..]| {
          assert w[1..][i..i + |mark|] == w[i + 1..i + 1 + |mark|];
        }
      }
      SkipFront(w[1..], mark, k - 1);
      assert w[1..][k - 1..] == w[k..];
    }
  }

  // ------------------------------------------------------------ the body state as a function

  datatype Scan = Scan(delivered: Bytes, window: Bytes, done: bool)

  /** One `parse` call in the body state; once the mark is found, what follows
      belongs to other states. */
  function Parsed(mark: Bytes, s: Scan, chunk: Bytes): Scan {
    if s.done then s
    else
      var w := s.window + chunk;
      if |mark| > |w| then s.(window := w)
      else
        var pos := FirstIndex(w, mark);
        if pos < |w| && pos + |mark| <= |w| then Scan(s.delivered + w[..pos], w[pos + |mark|..], true)
        else Scan(s.delivered + w[..|w| - |mark|], w[|w| - |mark|..], false)
  }

  function ParsedAll(mark: Bytes, s: Scan, chunks: seq<Bytes>): Scan {
    if chunks == [] then s
    else Parsed(mark, ParsedAll(mark, s, chunks[..|chunks| - 1]), chunks[|chunks| - 1])
  }

  /** What must have been delivered when the stream so far is `stream`. */
  function Body(mark: Bytes, stream: Bytes): Bytes {
    var i := FirstIndex(stream, mark);
    if i < |stream| then stream[..i]
    else if |stream| < |mark| then [] else stream[..|stream| - |mark|]
  }

  /** While the mark has not appeared, everything but the last bytes has been
      delivered, and as many are kept as the mark is long. */
  predicate Unfinished(mark: Bytes, s: Scan, stream: Bytes) {
    && !s.done && s.delivered + s.window == stream
    && (s.delivered != [] ==> |s.window| == |mark| && FirstIndex(stream, mark) == |stream|)
  }

  lemma Appended(mark: Bytes, s: Scan, stream: Bytes, chunk: Bytes)
    requires mark != [] && Unfinished(mark, s, stream)
    ensures FirstIndex(stream + chunk, mark) == |s.delivered| + FirstIndex(s.window + chunk, mark)
  {
    var whole, k := stream + chunk, |s.delivered|;
    assert whole[k..] == s.window + chunk;
    if k > 0 {
      FirstIndexIsFirst(stream, mark);
      forall i | 0 <= i < k ensures !OccursAt(whole, mark, i) {
        assert whole[i..i + |mark|] == stream[i..i + |mark|];
        assert !OccursAt(stream, mark, i);
      }
    }
    SkipFront(whole, mark, k);
  }

  lemma OneParse(mark: Bytes, s: Scan, stream: Bytes, chunk: Bytes)
    requires mark != [] && Unfinished(mark, s, stream)
    ensures var s', whole := Parsed(mark, s, chunk), stream + chunk;
            && s'.delivered == Body(mark, whole)
            && (s'.done <==> FirstIndex(whole, mark) < |whole|)
            && (!s'.done ==> Unfinished(mark, s', whole))
  {
    hide FirstIndex, OccursAt;
    Appended(mark, s, stream, chunk);
    var w := s.window + chunk;
    var pos := FirstIndex(w, mark);
    FoundFits(w, mark);
    assert stream + chunk == s.delivered + w;
    if pos < |w| {
      TakeJoin(s.delivered, w, pos);
    } else if |mark| <= |w| {
      TakeJoin(s.delivered, w, |w| - |mark|);
    }
  }

  /** The call that finds the mark takes exactly the mark away: what it delivered
      in all, the mark and what it left unread are the stream. */
  lemma MarkErased(mark: Bytes, s: Scan, stream: Bytes, chunk: Bytes)
    requires mark != [] && Unfinished(mark, s, stream) && Parsed(mark, s, chunk).done
    ensures var s' := Parsed(mark, s, chunk);
            s'.delivered + mark + s'.window == stream + chunk
  {
    var w := s.window + chunk;
    var pos := FoundParts(mark, s, chunk);
    hide Parsed, OccursAt;
    CutAtMark(w, mark, pos);
    Rejoined(s.delivered, w[..pos], mark, w[pos + |mark|..]);
    Rejoined(s.delivered, s.window, chunk, []);
  }

  lemma FoundParts(mark: Bytes, s: Scan, chunk: Bytes) returns (pos: nat)
    requires mark != [] && !s.done && Parsed(mark, s, chunk).done
    ensures var w := s.window + chunk;
            && OccursAt(w, mark, pos)
            && pos + |mark| <= |w|
            && Parsed(mark, s, chunk).delivered == s.delivered + w[..pos]
            && Parsed(mark, s, chunk).window == w[pos + |mark|..]
  {
    pos := FirstIndex(s.window + chunk, mark);
    FirstIndexIsFirst(s.window + chunk, mark);
    hide FirstIndex;
  }

  lemma CutAtMark(w: Bytes, mark: Bytes, pos: nat)
    requires OccursAt(w, mark, pos)
    ensures w == w[..pos] + mark + w[pos + |mark|..]
  {
  }

  lemma Rejoined(a: Bytes, b: Bytes, c: Bytes, d: Bytes)
    ensures (a + b) + c + d == a + (b + c + d)
    ensures (a + b) + c == a + (b + c)
  {
  }

  lemma TakeJoin(a: Bytes, b: Bytes, n: nat)
    requires n <= |b|
    ensures (a + b)[..|a| + n] == a + b[..n]
    ensures a + b[..n] + b[n..] == a + b
  {
    assert b[..n] + b[n..] == b;
  }

  /** The mark stays where it first appeared. */
  lemma FoundStays(mark: Bytes, stream: Bytes, more: Bytes)
    requires mark != [] && FirstIndex(stream, mark) < |stream|
    ensures FirstIndex(stream + more, mark) == FirstIndex(stream, mark)
    ensures Body(mark, stream + more) == Body(mark, stream)
  {
    var i := FirstIndex(stream, mark);
    var whole := stream + more;
    FirstIndexIsFirst(stream, mark);
    FirstIndexIsFirst(whole, mark);
    forall j | 0 <= j && j + |mark| <= |stream|
      ensures OccursAt(whole, mark, j) <==> OccursAt(stream, mark, j)
    {
      assert whole[j..j + |mark|] == stream[j..j + |mark|];
    }
    var k := FirstIndex(whole, mark);
    assert OccursAt(whole, mark, i);
    assert k <= i;
    assert OccursAt(stream, mark, k);
  }

  /** More input extends the body, or leaves it. */
  lemma BodyGrows(mark: Bytes, stream: Bytes, more: Bytes)
    requires mark != []
    ensures Body(mark, stream) <= Body(mark, stream + more)
  {
    var whole := stream + more;
    if FirstIndex(stream, mark) < |stream| {
      FoundStays(mark, stream, more);
    } else if |stream| >= |mark| {
      FirstIndexIsFirst(stream, mark);
      FirstIndexIsFirst(whole, mark);
      var k := FirstIndex(whole, mark);
      if k < |whole| && k + |mark| <= |stream| {
        assert stream[k..k + |mark|] == whole[k..k + |mark|];
        assert OccursAt(stream, mark, k);
      }
    }
  }

  /** Every cutting of the stream, after any bytes already in the window,
      delivers exactly the bytes before the first mark; until the mark appears,
      a prefix of the body. */
  lemma {:induction false} AnyCutting(mark: Bytes, window: Bytes, chunks: seq<Bytes>)
    requires mark != [] && chunks != []
    ensures var s, stream := ParsedAll(mark, Scan([], window, false), chunks), window + Joined(chunks);
            && s.delivered == Body(mark, stream)
            && (s.done <==> FirstIndex(stream, mark) < |stream|)
            && (!s.done ==> Unfinished(mark, s, stream))
    decreases |chunks|
  {
    hide Parsed, Body;
    var front, last := chunks[..|chunks| - 1], chunks[|chunks| - 1];
    var start := Scan([], window, false);
    var s := ParsedAll(mark, start, front);
    assert window + Joined(chunks) == (window + Joined(front)) + last;
    if front == [] {
      assert window + Joined(front) == window;
      OneParse(mark, start, window, last);
    } else {
      AnyCutting(mark, window, front);
      if s.done {
        FoundStays(mark, window + Joined(front), last);
        DoneStays(mark, s, last);
      } else {
        OneParse(mark, s, window + Joined(front), last);
      }
    }
  }

  /** Nothing is lost at the end of the body, however the stream was cut up to the
      call that finds the mark. */
  lemma NothingLost(mark: Bytes, window: Bytes, chunks: seq<Bytes>)
    requires mark != [] && chunks != []
    requires !ParsedAll(mark, Scan([], window, false), chunks[..|chunks| - 1]).done
    requires ParsedAll(mark, Scan([], window, false), chunks).done
    ensures var s := ParsedAll(mark, Scan([], window, false), chunks);
            s.delivered + mark + s.window == window + Joined(chunks)
  {
    hide Parsed, Body;
    var front, last := chunks[..|chunks| - 1], chunks[|chunks| - 1];
    var s := ParsedAll(mark, Scan([], window, false), front);
    UnfinishedSoFar(mark, window, front);
    hide Unfinished;
    MarkErased(mark, s, window + Joined(front), last);
    Rejoined(window, Joined(front), last, []);
  }

  lemma UnfinishedSoFar(mark: Bytes, window: Bytes, chunks: seq<Bytes>)
    requires mark != [] && !ParsedAll(mark, Scan([], window, false), chunks).done
    ensures Unfinished(mark, ParsedAll(mark, Scan([], window, false), chunks), window + Joined(chunks))
  {
    if chunks == [] {
      assert window + Joined(chunks) == window;
    } else {
      AnyCutting(mark, window, chunks);
    }
  }

  /** At every moment only a prefix of the body has been delivered. */
  lemma DeliveredSoFar(mark: Bytes, window: Bytes, chunks: seq<Bytes>, n: nat)
    requires mark != [] && n <= |chunks|
    ensures ParsedAll(mark, Scan([], window, false), chunks[..n]).delivered
            <= ParsedAll(mark, Scan([], window, false), chunks).delivered
  {
    hide Body;
    if n > 0 {
      AnyCutting(mark, window, chunks);
      AnyCutting(mark, window, chunks[..n]);
      JoinedSplit(chunks, n);
      hide Parsed, ParsedAll, Joined;
      var stream, more := window + Joined(chunks[..n]), Joined(chunks[n..]);
      assert window + Joined(chunks) == stream + more;
      BodyGrows(mark, stream, more);
    }
  }

  lemma DoneStays(mark: Bytes, s: Scan, chunk: Bytes)
    requires s.done
    ensures Parsed(mark, s, chunk) == s
  {
  }

  // ------------------------------------------------------------ the parser

  /** A search result is settled by an occurrence, or the end, with none before. */
  lemma FirstIndexIs(w: Bytes, mark: Bytes, i: nat)
    requires mark != [] && i <= |w| && (i < |w| ==> OccursAt(w, mark, i))
    requires forall j :: 0 <= j < i ==> !OccursAt(w, mark, j)
    ensures FirstIndex(w, mark) == i
  {
    FirstIndexIsFirst(w, mark);
    var k := FirstIndex(w, mark);
    if k < |w| && i < |w| {
      assert !(i < k);
    }
  }

  function Largest(a: int, b: int): int { if a < b then b else a }

  lemma SliceOfSlice(b: Bytes, from: nat, to: nat, k: nat, n: nat)
    requires from <= to <= |b| && k + n <= to - from
    ensures b[from..to][k..k + n] == b[from + k..from + k + n]
  {
    var whole, part := b[from..to], b[from + k..from + k + n];
    assert forall i :: 0 <= i < n ==> whole[k + i] == part[i];
    assert whole[k..k + n] == part;
  }

  lemma FoundFits(w: Bytes, mark: Bytes)
    requires mark != []
    ensures FirstIndex(w, mark) < |w| ==> FirstIndex(w, mark) + |mark| <= |w|
  {
    FirstIndexIsFirst(w, mark);
  }

  class MultipartFormDataParser {
    const crlfDashBoundary: Bytes
    var state: nat
    var buf: Bytes
    var spos: nat
    var epos: nat
    // everything the content callback has been given for this part
    var received: Bytes

    ghost predicate Valid()
      reads this
    {
      spos <= epos <= |buf| && state in {3, 4}
    }

    ghost function Window(): Bytes
      reads this`buf, this`spos, this`epos
      requires spos <= epos <= |buf|
    {
      buf[spos..epos]
    }

    ghost function View(): Scan
      reads this
      requires Valid()
    {
      Scan(received, Window(), state == 4)
    }

    /** The headers of a part have just been read; the window may already
        hold the beginning of the body. */
    constructor (boundary: Bytes, buf: Bytes, spos: nat, epos: nat)
      requires spos <= epos <= |buf|
      ensures Valid() && View() == Scan([], buf[spos..epos], false)
      ensures crlfDashBoundary == [0x0d, 0x0a, 0x2d, 0x2d] + boundary
    {
      crlfDashBoundary := [0x0d, 0x0a, 0x2d, 0x2d] + boundary;
      state := 3;
      this.buf, this.spos, this.epos := buf, spos, epos;
      received := [];
    }

    function BufSize(): (n: nat)
      reads this
      requires Valid()
      ensures n == |Window()|
    {
      epos - spos
    }

    method StartWith(pos: nat, s: Bytes) returns (b: bool)
      requires Valid() && spos <= pos <= epos
      ensures b <==> OccursAt(Window(), s, pos - spos)
    {
      ghost var w, k := Window(), pos - spos;
      if epos - pos < |s| { return false; }
      SliceOfSlice(buf, spos, epos, k, |s|);
      var i := 0;
      while i < |s|
        invariant 0 <= i <= |s|
        invariant forall j :: 0 <= j < i ==> buf[pos..pos + |s|][j] == s[j]
      {
        if buf[i + pos] != s[i] {
          assert buf[pos..pos + |s|][i] != s[i];
          return false;
        }
        i := i + 1;
      }
      b := true;
    }

    method BufFind(s: Bytes) returns (at: nat)
      requires Valid() && s != []
      ensures at == FirstIndex(Window(), s)
    {
      ghost var w := Window();
      var c := s[0];
      var off := spos;
      while off < epos
        invariant spos <= off <= epos
        invariant forall j :: 0 <= j < off - spos ==> !OccursAt(w, s, j)
      {
        var pos := off;
        while pos < epos && buf[pos] != c
          invariant off <= pos <= epos
          invariant forall j :: 0 <= j < pos - spos ==> !OccursAt(w, s, j)
        {
          OtherHead(w, s, pos - spos);
          pos := pos + 1;
        }
        if pos == epos {
          FirstIndexIs(w, s, |w|);
          return BufSize();
        }
        if |s| > epos - pos {
          TooLate(w, s, pos - spos);
          return BufSize();
        }
        var here := StartWith(pos, s);
        if here {
          FirstIndexIs(w, s, pos - spos);
          return pos - spos;
        }
        off := pos + 1;
      }
      FirstIndexIs(w, s, |w|);
      at := BufSize();
    }

    method BufAppend(data: Bytes)
      requires Valid()
      modifies this`buf, this`spos, this`epos
      ensures Valid() && Window() == old(Window()) + data
      ensures |buf| == Largest(old(|buf|), old(BufSize()) + |data|)
    {
      var needed := BufSize() + |data|;
      Rewind();
      if needed > |buf| {
        Resize(needed);
      }
      CopyIn(data);
    }

    /** The unread bytes come to lie at the front. */
    method Rewind()
      requires Valid()
      modifies this`buf, this`spos, this`epos
      ensures Valid() && spos == 0 && |buf| == old(|buf|) && Window() == old(Window())
    {
      var remaining := BufSize();
      if remaining > 0 && spos > 0 {
        Compact(remaining);
      }
      spos, epos := 0, remaining;
    }

    method CopyIn(data: Bytes)
      requires Valid() && spos == 0 && epos + |data| <= |buf|
      modifies this`buf, this`epos
      ensures Valid() && |buf| == old(|buf|) && Window() == old(Window()) + data
    {
      var i, n := 0, |data|;
      while i < n
        invariant 0 <= i <= n && |buf| == old(|buf|) && epos == old(epos)
        invariant forall k :: 0 <= k < epos ==> buf[k] == old(buf)[k]
        invariant forall k :: 0 <= k < i ==> buf[epos + k] == data[k]
      {
        buf := buf[epos + i := data[i]];
        i := i + 1;
      }
      epos := epos + n;
    }

    /** The unread bytes move to the front, one at a time. */
    method Compact(remaining: nat)
      requires Valid() && remaining == BufSize()
      modifies this`buf
      ensures |buf| == old(|buf|) && buf[..remaining] == old(Window())
    {
      ghost var w := Window();
      var i := 0;
      while i < remaining
        invariant 0 <= i <= remaining && |buf| == |old(buf)|
        invariant forall k :: 0 <= k < i ==> buf[k] == w[k]
        invariant forall k :: spos + i <= k < epos ==> buf[k] == old(buf)[k]
      {
        buf := buf[i := buf[spos + i]];
        i := i + 1;
      }
    }

    method Resize(size: nat)
      requires Valid() && |buf| < size
      modifies this`buf
      ensures |buf| == size && buf[..old(|buf|)] == old(buf)
      ensures Valid() && Window() == old(Window())
    {
      buf := buf + seq(size - |buf|, _ => 0);
    }

    method BufErase(size: nat)
      requires Valid() && size <= |Window()|
      modifies this`spos
      ensures Valid() && Window() == old(Window())[size..]
    {
      spos := spos + size;
    }

    /** What the content callback is given. */
    method Deliver(n: nat)
      requires Valid() && n <= |Window()|
      modifies this`received
      ensures Valid() && Window() == old(Window()) && received == old(received) + Window()[..n]
    {
      received := received + buf[spos..spos + n];
    }

    /** `parse` as long as the body lasts, with a callback that accepts. */
    method Parse(chunk: Bytes)
      requires Valid() && state == 3 && crlfDashBoundary != []
      modifies this
      ensures Valid() && View() == Parsed(crlfDashBoundary, old(View()), chunk)
    {
      hide FirstIndex, OccursAt, Window;
      BufAppend(chunk);
      ghost var w := Window();
      if BufSize() > 0 {
        if |crlfDashBoundary| > BufSize() { return; }
        var pos := BufFind(crlfDashBoundary);
        FoundFits(w, crlfDashBoundary);
        if pos < BufSize() {
          Deliver(pos);
          BufErase(pos + |crlfDashBoundary|);
          state := 4;
        } else {
          var len := BufSize() - |crlfDashBoundary|;
          assert w[0..] == w && received + w[..0] == received;
          if len > 0 {
            Deliver(len);
            BufErase(len);
          }
        }
      }
    }
  }

  lemma OtherHead(w: Bytes, s: Bytes, k: nat)
    requires s != [] && k < |w| && w[k] != s[0]
    ensures !OccursAt(w, s, k)
  {
    assert k + |s| <= |w| ==> w[k..k + |s|][0] == w[k];
  }

  lemma TooLate(w: Bytes, s: Bytes, k: nat)
    requires s != [] && k < |w| && |s| > |w| - k
    requires forall j :: 0 <= j < k ==> !OccursAt(w, s, j)
    ensures FirstIndex(w, s) == |w|
  {
    FirstIndexIs(w, s, |w|);
  }
}
