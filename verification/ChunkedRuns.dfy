/**
  The round trip: what the reader yields however the writer's bytes are cut into pieces, for
  chunks of any size, and exactly when that is what was written.
*/
module ChunkedRuns {
  import opened Basics
  import opened Bits
  import opened ChunkedCoding

  // s is what has been received of the whole message t.
  ghost predicate Received(s: string, t: string) {
    |s| <= |t| && s == t[..|s|]
  }

  // Where the size line of part k ends
  function LineEnd(ps: seq<Part>, k: nat): nat
    requires k < |ps|
  {
    Start(ps, k) + |ps[k].line| + 2
  }

  // The number of bytes from which the reader can take k parts: two more than the last one's data
  function Needed(ps: seq<Part>, k: nat): nat
    requires k <= |ps|
  {
    if k == 0 then 0 else LineEnd(ps, k - 1) + |ps[k - 1].data| + 2
  }

  // The reader has taken k parts.
  ghost predicate Taken(r: Reader, ps: seq<Part>, k: nat) {
    && k < |ps| && Carried(ps, k) && Received(r.str, Encode(ps, 0)) && r.offset <= |r.str| && r.chunks == Datas(ps, k)
    && |r.str| >= Needed(ps, k)
  }

  // ... and the next size line as well.
  ghost predicate PastLine(r: Reader, ps: seq<Part>, k: nat) {
    Taken(r, ps, k) && r.length == Announced(ps[k]) && r.offset == LineEnd(ps, k)
  }

  // The reader has taken k parts and is at the next size line, or past it, or has stopped after it.
  ghost predicate OnTrack(r: Reader, ps: seq<Part>, k: nat) {
    Taken(r, ps, k) &&
    match r.phase
    case End => Announced(ps[k]) == 0 && |r.str| >= LineEnd(ps, k)
    case Thrown => Announced(ps[k]) < 0 && |r.str| >= LineEnd(ps, k)
    case Body => if r.length == 0 then r.offset == Start(ps, k) else PastLine(r, ps, k)
  }

  // Nothing more can be taken from what has arrived.
  ghost predicate Waiting(r: Reader, ps: seq<Part>, k: nat) {
    k < |ps| && r.phase.Body? ==>
      && (r.length == 0 ==> |r.str| < LineEnd(ps, k))
      && (r.length > 0 ==> |r.str| < LineEnd(ps, k) + r.length + 2)
  }

  // The characters of the message from the start of part k on
  lemma Ahead(s: string, ps: seq<Part>, k: nat, j: nat)
    requires Carried(ps, k) && Received(s, Encode(ps, 0)) && j < |Encode(ps, k)| && Start(ps, k) + j < |s|
    ensures s[Start(ps, k) + j] == Encode(ps, k)[j]
  {
    hide Encode, Start;
    StartSplits(ps, k);
    var t := Encode(ps, 0);
    assert t[Start(ps, k)..][j] == t[Start(ps, k) + j];
  }

  lemma EncodeFront(ps: seq<Part>, k: nat)
    requires k < |ps|
    ensures |Encode(ps, k)| >= |PartText(ps[k])| && Encode(ps, k)[..|PartText(ps[k])|] == PartText(ps[k])
    ensures Announced(ps[k]) < 0 ==> Encode(ps, k) == PartText(ps[k])
  {
    hide PartText;
  }

  // What has arrived of part k's own text
  lemma AheadPart(s: string, ps: seq<Part>, k: nat, j: nat)
    requires k < |ps| && Carried(ps, k) && Received(s, Encode(ps, 0)) && Start(ps, k) + j < |s|
    requires j < |PartText(ps[k])|
    ensures s[Start(ps, k) + j] == PartText(ps[k])[j]
  {
    hide Encode, Start, PartText;
    EncodeFront(ps, k);
    Ahead(s, ps, k, j);
    assert Encode(ps, k)[..|PartText(ps[k])|][j] == Encode(ps, k)[j];
  }

  // A part's text starts with its size line.
  lemma LineFirst(p: Part)
    ensures |p.line| + 2 <= |PartText(p)| && PartText(p)[..|p.line| + 2] == p.line + CRLF
  {
    hide Announced;
  }

  // The characters of a size line that have arrived
  lemma LineChars(s: string, ps: seq<Part>, k: nat)
    requires k < |ps| && PartOk(ps[k]) && Carried(ps, k) && Received(s, Encode(ps, 0))
    ensures var o, h := Start(ps, k), ps[k].line;
      && (forall j :: o <= j < o + |h| && j < |s| ==> s[j] != '\r')
      && (o + |h| < |s| ==> s[o + |h|] == '\r') && (o + |h| + 1 < |s| ==> s[o + |h| + 1] == '\n')
  {
    hide Encode, PartText, Start, Announced, Received;
    var o, h := Start(ps, k), ps[k].line;
    LineFirst(ps[k]);
    forall j | 0 <= j < |h| + 2 && o + j < |s|
      ensures s[o + j] == (h + CRLF)[j]
    {
      AheadPart(s, ps, k, j);
      assert PartText(ps[k])[j] == PartText(ps[k])[..|h| + 2][j];
    }
    forall j | o <= j < o + |h| && j < |s|
      ensures s[j] != '\r'
    {
      assert s[o + (j - o)] == (h + CRLF)[j - o];
    }
    assert o + |h| < |s| ==> s[o + |h|] == (h + CRLF)[|h|];
    assert o + |h| + 1 < |s| ==> s[o + (|h| + 1)] == (h + CRLF)[|h| + 1];
  }

  /** At a size line: found exactly when it is complete, and it says the size announced. */
  lemma SizeLineRead(s: string, ps: seq<Part>, k: nat)
    requires k < |ps| && PartOk(ps[k]) && Carried(ps, k) && Received(s, Encode(ps, 0)) && Start(ps, k) <= |s|
    ensures var o := Start(ps, k);
      var e := FindCrlf(s, o);
      && (e < 0 <==> |s| < LineEnd(ps, k))
      && (e >= 0 ==> o <= e && e + 2 == LineEnd(ps, k) <= |s|)
      && (e >= 0 ==> Int32(Parse(s[o..e + 2], 0)) == Announced(ps[k]))
  {
    hide Encode, PartText, Start, FindCrlf, Parse, Int32, Received;
    var o, h := Start(ps, k), ps[k].line;
    LineFirst(ps[k]);
    LineChars(s, ps, k);
    LineFound(s, o, |h|);
    if o + |h| + 2 <= |s| {
      AheadSlice(s, ps, k, |h| + 2);
      ParseStops(h, 0, CRLF);
    }
  }

  lemma AheadSlice(s: string, ps: seq<Part>, k: nat, j: nat)
    requires k < |ps| && Carried(ps, k) && Received(s, Encode(ps, 0)) && Start(ps, k) + j <= |s|
    requires j <= |PartText(ps[k])|
    ensures s[Start(ps, k)..Start(ps, k) + j] == PartText(ps[k])[..j]
  {
    hide Encode, Start, PartText;
    forall i | 0 <= i < j
      ensures s[Start(ps, k)..Start(ps, k) + j][i] == PartText(ps[k])[..j][i]
    {
      AheadPart(s, ps, k, i);
    }
  }

  // The n characters at d are c, and CRLF follows or not.
  ghost predicate DataAt(s: string, d: nat, n: nat, c: string, crlf: bool) {
    d + n + 2 <= |s| && s[d..d + n] == c && (crlf <==> s[d + n] == '\r' && s[d + n + 1] == '\n')
  }

  /** Past the size line: the data is the part's, and CRLF follows it exactly if the part says so. */
  lemma DataRead(s: string, ps: seq<Part>, k: nat)
    requires Message(ps) && Carried(ps, k + 1) && Received(s, Encode(ps, 0))
    requires LineEnd(ps, k) + Announced(ps[k]) + 2 <= |s|
    ensures DataAt(s, LineEnd(ps, k), Announced(ps[k]), ps[k].data, ps[k].crlf)
  {
    hide Encode, Start, Announced, Received, PartText, DataAt, PartOk, Message;
    PartOfMessage(ps, k);
    PartSplit(ps[k]);
    var a, c := ps[k].line + CRLF, ps[k].data;
    AheadSlice(s, ps, k, |a| + |c|);
    assert LineEnd(ps, k) == Start(ps, k) + |a| && Announced(ps[k]) == |c|;
    if ps[k].crlf {
      AheadPart(s, ps, k, |a| + |c|);
      AheadPart(s, ps, k, |a| + |c| + 1);
    } else {
      LineFirst(ps[k + 1]);
      NextPart(s, ps, k);
    }
    DataWithin(s, Start(ps, k), a, c, LineEnd(ps, k), Announced(ps[k]), ps[k].crlf, PartText(ps[k]));
  }

  lemma PartOfMessage(ps: seq<Part>, k: nat)
    requires Message(ps) && Carried(ps, k + 1)
    ensures k + 1 < |ps| && PartOk(ps[k]) && PartOk(ps[k + 1]) && (!ps[k].crlf ==> ps[k + 1].line != "")
    ensures |ps[k].data| == Announced(ps[k]) > 0
  {
    hide Announced;
  }

  // Where a CRLF is missing, the next size line starts, and not with CR.
  lemma NextPart(s: string, ps: seq<Part>, k: nat)
    requires Message(ps) && Carried(ps, k + 1) && Received(s, Encode(ps, 0)) && !ps[k].crlf
    requires Start(ps, k) + |PartText(ps[k])| < |s|
    ensures s[Start(ps, k) + |PartText(ps[k])|] != '\r'
  {
    hide Encode, Announced, Received, PartText, Message;
    PartOfMessage(ps, k);
    var p := ps[k + 1];
    LineFirst(p);
    AheadPart(s, ps, k + 1, 0);
    assert PartText(p)[0] == PartText(p)[..|p.line| + 2][0] == p.line[0];
  }

  lemma PartSplit(p: Part)
    requires Announced(p) >= 0
    ensures PartText(p) == (p.line + CRLF) + p.data + (if p.crlf then CRLF else "")
    ensures |PartText(p)| == |p.line + CRLF| + |p.data| + if p.crlf then 2 else 0
  {
    hide Announced;
  }

  lemma DataWithin(s: string, o: nat, a: string, c: string, d: nat, n: nat, crlf: bool, t: string)
    requires d == o + |a| && n == |c| && d + n + 2 <= |s| && t == a + c + (if crlf then CRLF else "")
    requires s[o..o + (|a| + |c|)] == t[..|a| + |c|]
    requires if crlf then s[o + (|a| + |c|)] == t[|a| + |c|] && s[o + (|a| + |c| + 1)] == t[|a| + |c| + 1]
             else s[o + |t|] != '\r'
    ensures DataAt(s, d, n, c, crlf)
  {
    var l := |a| + |c|;
    SliceOfSlice(s, o, l, |a|, l);
    assert t[..l][|a|..l] == c;
  }

  lemma PartLength(p: Part)
    requires PartOk(p) && Announced(p) > 0
    ensures |PartText(p)| == |p.line| + 2 + Announced(p) + if p.crlf then 2 else 0
    ensures |p.data| == Announced(p)
  {
  }

  /** One update takes the reader from one point of the message to the last that has arrived. */
  lemma {:induction false} UpdateTracks(r: Reader, ps: seq<Part>, k: nat) returns (l: nat)
    requires Message(ps) && OnTrack(r, ps, k)
    ensures k <= l && OnTrack(Update(r), ps, l) && Waiting(Update(r), ps, l) && Update(r).str == r.str
    decreases |ps| - k, 1
  {
    hide Encode, PartText, FindCrlf, Parse, Datas, Announced, Received, LineEnd, PartOk;
    l := k;
    if r.phase.Body? {
      UpdateCases(r);
      if r.length == 0 {
        SizeLineRead(r.str, ps, k);
        if FindCrlf(r.str, r.offset) >= 0 { l := ContinueTracks(TakeSize(r), ps, k); }
      } else if r.length > 0 {
        l := ContinueTracks(r, ps, k);
      } else {
        NothingAfter(r, ps, k);
      }
    }
  }

  // A negative size is the last that is sent.
  lemma NothingAfter(r: Reader, ps: seq<Part>, k: nat)
    requires PastLine(r, ps, k) && r.length < 0
    ensures FindCrlf(r.str, r.offset) < 0
  {
    hide Encode, Start;
    StartSplits(ps, k);
    EncodeFront(ps, k);
  }

  lemma {:induction false} ContinueTracks(r: Reader, ps: seq<Part>, k: nat) returns (l: nat)
    requires Message(ps) && PastLine(r, ps, k) && r.phase.Body?
    ensures k <= l && OnTrack(Continue(r), ps, l) && Waiting(Continue(r), ps, l) && Continue(r).str == r.str
    decreases |ps| - k, 0
  {
    hide Encode, PartText, FindCrlf, Parse, Update, Datas, Received, Announced, PartOk;
    l := k;
    ContinueCases(r);
    if r.length > 0 && Arrived(r) {
      PartOfMessage(ps, k);
      DataRead(r.str, ps, k);
      PartLength(ps[k]);
      assert Datas(ps, k + 1) == Datas(ps, k) + [ps[k].data] by { DatasNext(ps, k); }
      l := UpdateTracks(TakeData(r), ps, k + 1);
    }
  }

  lemma DatasNext(ps: seq<Part>, k: nat)
    requires k < |ps|
    ensures Datas(ps, k + 1) == Datas(ps, k) + [ps[k].data]
  {
  }

  lemma {:induction false} FeedTracks(r: Reader, ps: seq<Part>, k: nat, pieces: seq<string>) returns (l: nat)
    requires Message(ps) && OnTrack(r, ps, k) && Waiting(r, ps, k) && Received(r.str + Concat(pieces), Encode(ps, 0))
    ensures k <= l && OnTrack(FeedAll(r, pieces), ps, l) && Waiting(FeedAll(r, pieces), ps, l)
    ensures FeedAll(r, pieces).str == r.str + Concat(pieces)
    decreases |pieces|
  {
    hide Encode, Start, Update, Datas, Announced, LineEnd, Message;
    l := k;
    if pieces == [] {
      assert r.str + Concat(pieces) == r.str;
    } else {
      var fed := r.(str := r.str + pieces[0]);
      assert fed.str + Concat(pieces[1..]) == r.str + Concat(pieces);
      var t, n := Encode(ps, 0), |fed.str|;
      assert fed.str == (r.str + Concat(pieces))[..n] == t[..n];
      l := UpdateTracks(fed, ps, k);
      l := FeedTracks(Update(fed), ps, l, pieces[1..]);
    }
  }

  const START: Reader := Reader("", 0, 0, Body, [])

  lemma AtStart(ps: seq<Part>)
    requires ps != []
    ensures OnTrack(START, ps, 0) && Waiting(START, ps, 0)
  {
    hide Encode;
  }

  /**
    At every moment of every segmentation of any message, from this server or another peer: the
    chunks yielded are those that have arrived completely, and the message has ended exactly when
    the first size line that announces 0 is there and none before it announces a negative size.
  */
  lemma AnyMoment(ps: seq<Part>, pieces: seq<string>)
    requires Message(ps) && Received(Concat(pieces), Encode(ps, 0))
    ensures var r, n := FeedAll(START, pieces), Reach(ps, 0);
      && |r.chunks| <= n && r.chunks == Datas(ps, |r.chunks|)
      && (forall k :: 1 <= k <= n ==> (k <= |r.chunks| <==> |Concat(pieces)| >= Needed(ps, k)))
      && (r.phase.End? <==> Announced(ps[n]) == 0 && |Concat(pieces)| >= LineEnd(ps, n))
  {
    hide Encode, Update, PartText, FeedAll, Announced, Received, PartOk;
    AtStart(ps);
    assert START.str + Concat(pieces) == Concat(pieces);
    var l := FeedTracks(START, ps, 0, pieces);
    var r, n := FeedAll(START, pieces), Reach(ps, 0);
    assert l <= n;
    forall k | 1 <= k <= n
      ensures k <= l <==> |r.str| >= Needed(ps, k)
    {
      if k <= l { NeededMonotone(ps, k, l); } else { NextNeeded(r, ps, l); NeededMonotone(ps, l + 1, k); }
    }
    if l < n {
      NextNeeded(r, ps, l);
      NeededMonotone(ps, l + 1, n);
      NeededByLine(ps, n);
    }
  }

  // What is still missing of a part that carries data
  lemma NextNeeded(r: Reader, ps: seq<Part>, l: nat)
    requires OnTrack(r, ps, l) && Waiting(r, ps, l) && PartOk(ps[l]) && Announced(ps[l]) > 0
    ensures |r.str| < Needed(ps, l + 1)
  {
    hide Encode, PartText, Datas, Received, Announced, PartOk, Start;
    PartLength(ps[l]);
  }

  // The parts before k are needed before k's size line ends.
  lemma NeededByLine(ps: seq<Part>, k: nat)
    requires k < |ps| && Carried(ps, k) && forall i :: 0 <= i < k ==> PartOk(ps[i])
    ensures Needed(ps, k) <= LineEnd(ps, k)
  {
    hide PartText, Announced, PartOk;
    if k > 0 { PartLength(ps[k - 1]); }
  }

  lemma {:induction false} NeededMonotone(ps: seq<Part>, j: nat, k: nat)
    requires j <= k <= |ps| && Carried(ps, k) && forall i :: 0 <= i < k ==> PartOk(ps[i])
    ensures Needed(ps, j) <= Needed(ps, k)
  {
    hide PartText, Announced, PartOk, Start;
    if j < k {
      NeededMonotone(ps, j, k - 1);
      NeededByLine(ps, k - 1);
    }
  }

  /** All of a message has arrived: the chunks before the first that announces no positive size. */
  lemma Outcome(ps: seq<Part>, pieces: seq<string>)
    requires Message(ps) && Concat(pieces) == Encode(ps, 0)
    ensures var r, n := FeedAll(START, pieces), Reach(ps, 0);
      r.chunks == Datas(ps, n) && (r.phase.End? <==> Announced(ps[n]) == 0)
  {
    hide Encode, FeedAll, Announced, PartText, Datas, Start, PartOk;
    var t, n := Encode(ps, 0), Reach(ps, 0);
    assert Received(t, t);
    AnyMoment(ps, pieces);
    StartSplits(ps, n);
    EncodeFront(ps, n);
    LineFirst(ps[n]);
    forall k | 1 <= k <= n
      ensures Needed(ps, k) <= |t|
    {
      NeededMonotone(ps, k, n);
      NeededByLine(ps, n);
    }
  }

  // ---------------------------------------------------------------- messages of any peer

  /**
    A message in the form of the standard: each line starts with the size in hexadecimal digits of
    either case, leading zeros allowed, and goes on with anything but digits and CR, such as chunk
    extensions; the last size is 0 and a trailer section may follow it. The CRLF after a chunk's
    data may be missing before a line that has digits.
  */
  ghost predicate InForm(ps: seq<Part>, cs: seq<string>, digits: seq<seq<nat>>) {
    && |ps| == |digits| == |cs| + 1
    && (forall i :: 0 <= i < |ps| ==> '\r' !in ps[i].line)
    && (forall i :: 0 <= i < |cs| ==> ps[i].data == cs[i] && Spells(ps[i].line, digits[i], |cs[i]|))
    && (forall i :: 0 <= i < |cs| && !ps[i].crlf ==> digits[i + 1] != [])
    && Spells(ps[|cs|].line, digits[|cs|], 0)
  }

  lemma SpeltLine(line: string, vs: seq<nat>, n: nat)
    requires Spells(line, vs, n)
    ensures |vs| <= |line|
  {
  }

  /** However it is cut into receives, every such message is read as the chunks it carries. */
  lemma ReadsAnyForm(ps: seq<Part>, cs: seq<string>, digits: seq<seq<nat>>, pieces: seq<string>)
    requires InForm(ps, cs, digits) && Sendable(cs) && Concat(pieces) == Encode(ps, 0)
    ensures FeedAll(START, pieces).phase.End? && FeedAll(START, pieces).chunks == cs
  {
    hide Encode, FeedAll, Spells, Parse;
    var n := |cs|;
    forall i | 0 <= i < n
      ensures PartOk(ps[i]) && Announced(ps[i]) == |cs[i]| > 0
    {
      SpeltNumber(ps[i].line, digits[i], |cs[i]|);
    }
    SpeltNumber(ps[n].line, digits[n], 0);
    assert Announced(ps[n]) == 0 && PartOk(ps[n]);
    forall i | 0 <= i < n && !ps[i].crlf
      ensures ps[i + 1].line != ""
    {
      SpeltLine(ps[i + 1].line, digits[i + 1], if i + 1 < n then |cs[i + 1]| else 0);
    }
    assert Message(ps);
    assert Reach(ps, 0) == n;
    Outcome(ps, pieces);
    assert Datas(ps, n) == cs;
  }

  // ---------------------------------------------------------------- messages of this server

  // Chunks that carry data, of a size that fits an int
  ghost predicate Sendable(cs: seq<string>) {
    forall i :: 0 <= i < |cs| ==> 0 < |cs[i]| < 0x8000_0000
  }

  /** The number of chunks before the first whose size casts to 0 or less, and whether that is 0. */
  ghost function ServerReach(cs: seq<string>): (n: nat)
    ensures n <= |cs| && (forall i :: 0 <= i < n ==> Int32(|cs[i]|) > 0) && (n < |cs| ==> Int32(|cs[n]|) <= 0)
    ensures Message(Parts(cs, 0)) && n == Reach(Parts(cs, 0), 0)
  {
    ServerMessage(cs);
    var n := Reach(Parts(cs, 0), 0);
    ReachInChunks(cs, n);
    n
  }

  lemma ReachInChunks(cs: seq<string>, n: nat)
    requires Message(Parts(cs, 0)) && n == Reach(Parts(cs, 0), 0)
    ensures n <= |cs| && (forall i :: 0 <= i < n ==> Int32(|cs[i]|) > 0) && (n < |cs| ==> Int32(|cs[n]|) <= 0)
  {
    hide PartOf, Int32, Announced, PartOk;
    var ps := Parts(cs, 0);
    forall i | 0 <= i < n
      ensures Int32(|cs[i]|) > 0
    {
      PartOfChunk(cs[i]);
      assert Announced(ps[i]) > 0;
    }
    if n < |cs| { PartOfChunk(cs[n]); }
  }

  // The chunks as far as they are sent
  function Casts(cs: seq<string>, k: nat): (r: seq<string>)
    requires k <= |cs|
    ensures |r| == k && forall i :: 0 <= i < k ==> r[i] == Cast(cs[i])
  {
    if k == 0 then [] else Casts(cs, k - 1) + [Cast(cs[k - 1])]
  }

  lemma CastsNext(cs: seq<string>, k: nat)
    requires k < |cs|
    ensures Casts(cs, k + 1) == Casts(cs, k) + [Cast(cs[k])]
  {
  }

  /**
    What the server's chunks of any size become: those before the first whose size casts to 0 or
    less, each as far as it was sent; the message ends unless that size is negative.
  */
  lemma ServerOutcome(cs: seq<string>, pieces: seq<string>)
    requires Concat(pieces) == Encode(Parts(cs, 0), 0)
    ensures var r, n := FeedAll(START, pieces), ServerReach(cs);
      r.chunks == Casts(cs, n) && (r.phase.End? <==> n == |cs| || Int32(|cs[n]|) == 0)
  {
    hide Encode, FeedAll, Int32, Announced, PartOk, Cast, Hex;
    var ps, n := Parts(cs, 0), ServerReach(cs);
    Outcome(ps, pieces);
    PartOfChunk(if n < |cs| then cs[n] else "");
    assert Int32(0) == 0 by { ZeroInt(); }
    assert Datas(ps, n) == Casts(cs, n);
  }

  /**
    The round trip, whatever the segmentation: the chunks come back, and the message ends, if and
    only if none is empty and each is below 2^31 bytes.
  */
  lemma RoundTrip(cs: seq<string>, pieces: seq<string>)
    requires Concat(pieces) == Encode(Parts(cs, 0), 0)
    ensures FeedAll(START, pieces).phase.End? && FeedAll(START, pieces).chunks == cs <==> Sendable(cs)
  {
    hide Encode, FeedAll, Parts;
    var n := ServerReach(cs);
    ServerOutcome(cs, pieces);
    if Sendable(cs) {
      assert forall i :: 0 <= i < |cs| ==> Int32(|cs[i]|) == |cs[i]| && Cast(cs[i]) == cs[i];
      assert n == |cs|;
    } else if Casts(cs, n) == cs {
      forall i | 0 <= i < |cs|
        ensures 0 < |cs[i]| < 0x8000_0000
      {
        assert Cast(cs[i]) == cs[i];
      }
    }
  }

  // Chunks below 2^31 bytes, with no data after an empty one
  ghost predicate Kept(cs: seq<string>) {
    && (forall i :: 0 <= i < |cs| ==> |cs[i]| < 0x8000_0000)
    && (forall i, j :: 0 <= i < j < |cs| && cs[i] == "" ==> cs[j] == "")
  }

  ghost predicate SentWhole(cs: seq<string>, n: nat) {
    n <= |cs| && forall i :: 0 <= i < n ==> Cast(cs[i]) == cs[i]
  }

  ghost predicate Bare(cs: seq<string>, n: nat, k: nat) {
    k <= |cs| && forall i :: n <= i < k ==> cs[i] == ""
  }

  // The data of the first k chunks, against what was sent of the first n
  lemma {:induction false} FlatSent(cs: seq<string>, n: nat, k: nat)
    requires n <= k <= |cs|
    ensures |Flatten(Casts(cs, n))| <= |Flatten(cs[..k])|
    ensures Flatten(Casts(cs, n)) == Flatten(cs[..k]) <==> SentWhole(cs, n) && Bare(cs, n, k)
    decreases k
  {
    hide Flatten, Casts, Cast;
    if k == 0 {
      assert cs[..k] == Casts(cs, n);
    } else {
      var flat, c := Flatten(cs[..k - 1]), cs[k - 1];
      assert Flatten(cs[..k]) == flat + c by {
        assert cs[..k] == cs[..k - 1] + [c];
        FlattenNext(cs[..k - 1], c);
      }
      if n < k {
        var sent := Flatten(Casts(cs, n));
        FlatSent(cs, n, k - 1);
        assert sent + "" == sent;
        SameParts(sent, "", flat, c);
        assert Bare(cs, n, k) <==> Bare(cs, n, k - 1) && c == "";
      } else {
        var sent := Flatten(Casts(cs, n - 1));
        FlatSent(cs, n - 1, k - 1);
        assert Flatten(Casts(cs, n)) == sent + Cast(c) by {
          CastsNext(cs, n - 1);
          FlattenNext(Casts(cs, n - 1), Cast(c));
        }
        CastShorter(c);
        SameParts(sent, Cast(c), flat, c);
        assert SentWhole(cs, n) <==> SentWhole(cs, n - 1) && Cast(c) == c;
      }
    }
  }

  lemma CastShorter(c: string)
    ensures |Cast(c)| <= |c|
  {
  }

  lemma SameParts(a: string, x: string, b: string, y: string)
    requires |a| <= |b| && |x| <= |y|
    ensures a + x == b + y <==> a == b && x == y
  {
    if a + x == b + y {
      assert |a + x| == |b + y|;
      assert a == (a + x)[..|a|] && b == (b + y)[..|a|];
      assert x == (a + x)[|a|..] && y == (b + y)[|a|..];
    }
  }

  /** The data as a whole comes back if and only if no chunk is too large and none follows an empty one. */
  lemma BodyRoundTrip(cs: seq<string>, pieces: seq<string>)
    requires Concat(pieces) == Encode(Parts(cs, 0), 0)
    ensures FeedAll(START, pieces).phase.End? && Flatten(FeedAll(START, pieces).chunks) == Flatten(cs) <==> Kept(cs)
  {
    hide Encode, FeedAll, Flatten, Parts;
    var n := ServerReach(cs);
    ServerOutcome(cs, pieces);
    assert cs[..|cs|] == cs;
    FlatSent(cs, n, |cs|);
  }

  // ---------------------------------------------------------------- the operations

  /** `GetChunkLength`: the leading hexadecimal digits, accumulated in an int. */
  method GetChunkLength(line: string) returns (length: int)
    ensures length == Int32(Parse(line, 0))
  {
    hide DigitValue, Int32;
    length := 0;
    ghost var value: nat := 0;
    var i := 0;
    assert Int32(0) == 0 by { ZeroInt(); }
    while i < |line|
      invariant 0 <= i <= |line| && Parse(line[i..], value) == Parse(line, 0) && length == Int32(value)
    {
      var d := DigitValue(line[i]);
      if d < 0 {
        break;
      }
      assert line[i..][1..] == line[i + 1..];
      Int32Step(value, d);
      length := Int32(16 * length + d);
      value := 16 * value + d;
      i := i + 1;
    }
  }

  lemma ZeroInt()
    ensures Int32(0) == 0
  {
  }

  class HttpMessageStream {
    var str: string
    var offset: nat

    constructor ()
      ensures str == "" && offset == 0
    {
      str, offset := "", 0;
    }

    /** `ReadCompleteLine`: the bytes up to and including the next CRLF, or nothing. */
    method ReadCompleteLine() returns (line: string)
      requires offset <= |str|
      modifies this`offset
      ensures var e := FindCrlf(str, old(offset));
        if e < 0 then line == "" && offset == old(offset)
        else old(offset) <= e && e + 2 <= |str| && line == str[old(offset)..e + 2] && offset == e + 2
    {
      line := "";
      var i, end := offset, offset;
      FindCrlfRange(str, offset);
      while i + 2 <= |str|
        invariant offset <= i && FindCrlf(str, i) == FindCrlf(str, offset) && end == offset == old(offset)
        decreases |str| - i
      {
        if str[i] == '\r' && str[i + 1] == '\n' {
          end := i + 2;
          break;
        }
        i := i + 1;
      }
      if end > offset {
        line := str[offset..end];
        offset := end;
      }
    }
  }

  // The parser's header information and outputs that the chunked body branch works on
  class ChunkedBody {
    var length: int            // hdr.chunk_length
    var phase: Phase           // state, or that an exception has left UpdateMessage
    var body: string           // msg.body, filled when not streaming
    var chunks: seq<string>    // streaming_data->chunks, filled when streaming
    ghost var taken: seq<string>

    constructor ()
      ensures length == 0 && phase == Body && body == "" && chunks == [] && taken == []
    {
      length, phase, body, chunks, taken := 0, Body, "", [], [];
    }

    ghost predicate Valid(streaming: bool)
      reads this
    {
      if streaming then chunks == taken && body == "" else body == Flatten(taken) && chunks == []
    }

    ghost function View(s: HttpMessageStream): Reader
      reads this, s
    {
      Reader(s.str, s.offset, length, phase, taken)
    }

    // Appends one chunk to the body or the streamed chunks and skips the CRLF behind it.
    method TakeChunk(s: HttpMessageStream, streaming: bool)
      requires Valid(streaming) && length > 0 && s.offset + length + 2 <= |s.str|
      modifies this`length, this`body, this`chunks, this`taken, s`offset
      ensures Valid(streaming) && View(s) == TakeData(old(View(s)))
    {
      hide Flatten;
      ghost var r := View(s);
      var chunk := s.str[s.offset..s.offset + length];
      if !streaming {
        body := body + chunk;
      } else {
        chunks := chunks + [chunk];
      }
      FlattenNext(taken, chunk);
      taken := taken + [chunk];
      s.offset := s.offset + length;
      if s.offset + 2 <= |s.str| && s.str[s.offset] == '\r' && s.str[s.offset + 1] == '\n' {
        s.offset := s.offset + 2;
      }
      length := 0;
      assert View(s) == TakeData(r);
    }

    /** `UpdateMessage` in the state Body with chunked transfer encoding. */
    method UpdateMessage(s: HttpMessageStream, streaming: bool)
      requires s.offset <= |s.str| && Valid(streaming)
      modifies this, s`offset
      ensures s.offset <= |s.str| && Valid(streaming)
      ensures View(s) == Update(old(View(s)))
    {
      hide Update, Continue, FindCrlf, Parse, Flatten, TakeData, Int32;
      while phase == Body
        invariant s.offset <= |s.str| && Valid(streaming)
        invariant Update(View(s)) == Update(old(View(s)))
        decreases |s.str| - s.offset
      {
        UpdateCases(View(s));
        if length <= 0 {
          var line := s.ReadCompleteLine();
          if line == "" {
            return;
          }
          length := GetChunkLength(line);
        }
        ContinueCases(View(s));
        if length == 0 {
          phase := End;
          return;
        }
        if 0 <= s.offset + length + 2 <= |s.str| {
          if length < 0 {
            phase := Thrown;
            return;
          }
          TakeChunk(s, streaming);
        } else {
          return;
        }
      }
      EndedUpdate(View(s));
    }
  }

  lemma FlattenNext(cs: seq<string>, c: string)
    ensures Flatten(cs + [c]) == Flatten(cs) + c
  {
    assert (cs + [c])[..|cs|] == cs;
  }

  lemma EndedUpdate(r: Reader)
    requires ReaderOk(r) && !r.phase.Body?
    ensures Update(r) == r
  {
  }

  // The branches of an update
  lemma UpdateCases(r: Reader)
    requires ReaderOk(r) && r.phase.Body?
    ensures r.length > 0 ==> Update(r) == Continue(r)
    ensures r.length <= 0 && FindCrlf(r.str, r.offset) < 0 ==> Update(r) == r
    ensures r.length <= 0 && FindCrlf(r.str, r.offset) >= 0 ==>
      var u := TakeSize(r); r.offset < u.offset <= |r.str| && Update(r) == Continue(u)
  {
    FindCrlfRange(r.str, r.offset);
  }

  lemma ContinueCases(r: Reader)
    requires ReaderOk(r)
    ensures r.length == 0 ==> Continue(r) == r.(phase := End)
    ensures r.length != 0 && !Arrived(r) ==> Continue(r) == r
    ensures r.length < 0 && Arrived(r) ==> Continue(r) == r.(phase := Thrown)
    ensures r.length > 0 && Arrived(r) ==>
      var u := TakeData(r); r.offset < u.offset <= |r.str| && Continue(r) == Update(u)
  {
  }

  // ---------------------------------------------------------------- the writer

  // A connection on which a number of writes still succeed
  class Connection {
    var sent: string
    var patience: nat

    constructor (n: nat)
      ensures sent == "" && patience == n
    {
      sent, patience := "", n;
    }

    // WriteAll gets the size as an int, sends that many bytes, and fails if it is negative.
    method WriteString(s: string) returns (ok: bool)
      modifies this
      ensures ok == (old(patience) > 0 && Int32(|s|) >= 0)
      ensures sent == (if ok then old(sent) + Cast(s) else old(sent))
      ensures patience == if ok then old(patience) - 1 else old(patience)
    {
      var n := Int32(|s|);
      ok := patience > 0 && n >= 0;
      if ok {
        sent, patience := sent + s[..n], patience - 1;
      }
    }

    /** `WriteChunk`: size line, data, CRLF, stopping at the first failure. */
    method WriteChunk(chunk: string) returns (ok: bool)
      modifies this
      ensures ok == (old(patience) >= 3 && Int32(|chunk|) >= 0)
      ensures old(patience) >= 3 ==> sent == old(sent) + PartText(PartOf(chunk))
      ensures ok ==> patience == old(patience) - 3
      ensures old(patience) == 0 ==> sent == old(sent)
      ensures old(patience) == 1 ==> sent == old(sent) + SizeLine(|chunk|)
      ensures old(patience) == 2 ==> sent == old(sent) + (SizeLine(|chunk|) + Cast(chunk))
    {
      hide Hex, Announced;
      PartOfChunk(chunk);
      assert Cast(SizeLine(|chunk|)) == SizeLine(|chunk|) && Int32(|SizeLine(|chunk|)|) >= 0 by {
        ShortLine(|chunk|);
      }
      assert Cast(CRLF) == CRLF && Int32(|CRLF|) == 2;
      ok := WriteString(SizeLine(|chunk|));
      if ok {
        ok := WriteString(chunk);
      }
      if ok {
        ok := WriteString(CRLF);
      }
    }
  }

  lemma ShortLine(n: nat)
    ensures Cast(SizeLine(n)) == SizeLine(n) && Int32(|SizeLine(n)|) >= 0
  {
    hide Hex;
    WordPower(0);
    HexLength(n % WORD32, 8);
  }

  // n has at most d digits.
  lemma {:induction false} HexLength(n: nat, d: nat)
    requires d > 0 && n < Pow2(4 * d)
    ensures |Hex(n)| <= d
    decreases d
  {
    hide Pow2, HexDigit;
    if n >= 16 {
      assert Pow2(4 * d) == 16 * Pow2(4 * (d - 1)) by { HexPlace(d); }
      assert d > 1 by { Pow2Zero(); }
      HexLength(n / 16, d - 1);
    }
  }

  lemma HexPlace(d: nat)
    requires d > 0
    ensures Pow2(4 * d) == 16 * Pow2(4 * (d - 1))
  {
    hide Pow2;
    Pow2Succ(4 * d - 1); Pow2Succ(4 * d - 2); Pow2Succ(4 * d - 3); Pow2Succ(4 * d - 4);
  }

  // ---------------------------------------------------------------- writer and reader together

  /** The chunks, then an empty one, as long as they can be written. */
  method WriteMessage(conn: Connection, cs: seq<string>) returns (ok: bool)
    requires conn.sent == "" && conn.patience >= 3 * (|cs| + 1)
    modifies conn
    ensures ok <==> forall i :: 0 <= i < |cs| ==> Int32(|cs[i]|) >= 0
    ensures conn.sent == Encode(Parts(cs, 0), 0)
  {
    hide PartText, PartOf, Announced, Int32, Parts;
    ghost var ps := Parts(cs, 0);
    var k := 0;
    assert conn.sent + Encode(ps, 0) == Encode(ps, 0);
    while k < |cs|
      invariant 0 <= k <= |cs| && conn.patience >= 3 * (|cs| + 1 - k) && conn.sent + Encode(ps, k) == Encode(ps, 0)
      invariant forall i :: 0 <= i < k ==> Int32(|cs[i]|) >= 0
    {
      ghost var sent := conn.sent;
      PartOfChunk(cs[k]);
      ok := conn.WriteChunk(cs[k]);
      if !ok {
        return;
      }
      assert sent + (PartText(ps[k]) + Encode(ps, k + 1)) == sent + PartText(ps[k]) + Encode(ps, k + 1);
      k := k + 1;
    }
    ZeroInt();
    PartOfChunk("");
    ok := conn.WriteChunk("");
    assert Encode(ps, k) == PartText(ps[k]) + Encode(ps, k + 1);
  }

  // s cut into pieces of the given lengths, with what is left as the last piece
  function Cut(s: string, lengths: seq<nat>): seq<string>
    decreases |lengths|
  {
    if lengths == [] then [s]
    else
      var n := if lengths[0] < |s| then lengths[0] else |s|;
      [s[..n]] + Cut(s[n..], lengths[1..])
  }

  lemma {:induction false} CutConcat(s: string, lengths: seq<nat>)
    ensures Concat(Cut(s, lengths)) == s
    decreases |lengths|
  {
    if lengths == [] {
      assert [s][1..] == [];
    } else {
      var n := if lengths[0] < |s| then lengths[0] else |s|;
      CutConcat(s[n..], lengths[1..]);
      var rest := Cut(s[n..], lengths[1..]);
      assert ([s[..n]] + rest)[1..] == rest;
    }
  }

  /** Every segmentation is a cut. */
  lemma {:induction false} EveryCut(pieces: seq<string>)
    requires pieces != []
    ensures exists lengths :: Cut(Concat(pieces), lengths) == pieces
    decreases |pieces|
  {
    var s := Concat(pieces);
    if |pieces| == 1 {
      assert pieces[1..] == [] && s == pieces[0];
      assert Cut(s, []) == pieces;
    } else {
      EveryCut(pieces[1..]);
      var lengths :| Cut(Concat(pieces[1..]), lengths) == pieces[1..];
      var all := [|pieces[0]|] + lengths;
      assert all[1..] == lengths && s[..|pieces[0]|] == pieces[0] && s[|pieces[0]|..] == Concat(pieces[1..]);
      assert Cut(s, all) == pieces;
    }
  }

  // Receives the pieces one by one.
  method Receive(s: HttpMessageStream, b: ChunkedBody, pieces: seq<string>, streaming: bool)
    requires s.offset <= |s.str| && b.Valid(streaming)
    modifies s, b
    ensures s.offset <= |s.str| && b.Valid(streaming)
    ensures b.View(s) == FeedAll(old(b.View(s)), pieces)
  {
    hide Update, Flatten;
    ghost var r := b.View(s);
    var i := 0;
    assert pieces[0..] == pieces;
    while i < |pieces|
      invariant 0 <= i <= |pieces| && s.offset <= |s.str| && b.Valid(streaming)
      invariant FeedAll(b.View(s), pieces[i..]) == FeedAll(r, pieces)
    {
      assert pieces[i..][1..] == pieces[i + 1..];
      s.str := s.str + pieces[i];
      b.UpdateMessage(s, streaming);
      i := i + 1;
    }
  }

  /**
    The whole way: chunks of any size handed to WriteChunk and cut at will into receives. What
    comes out of UpdateMessage are the chunks before the first whose size casts to 0 or less, each
    as far as it was sent; that is all that went in exactly under the stated conditions.
  */
  method Transfer(cs: seq<string>, lengths: seq<nat>, streaming: bool)
    returns (chunks: seq<string>, body: string, ended: bool)
    ensures var n := ServerReach(cs);
      && (ended <==> n == |cs| || Int32(|cs[n]|) == 0)
      && (if streaming then chunks == Casts(cs, n) && body == "" else chunks == [] && body == Flatten(Casts(cs, n)))
    ensures streaming ==> (ended && chunks == cs <==> Sendable(cs))
    ensures !streaming ==> (ended && body == Flatten(cs) <==> Kept(cs))
  {
    hide Encode, FeedAll, Cut, Flatten, Int32, Casts, Parts;
    var conn := new Connection(3 * (|cs| + 1));
    var ok := WriteMessage(conn, cs);
    var pieces := Cut(conn.sent, lengths);
    CutConcat(conn.sent, lengths);
    ServerOutcome(cs, pieces);
    RoundTrip(cs, pieces);
    BodyRoundTrip(cs, pieces);
    var s := new HttpMessageStream();
    var b := new ChunkedBody();
    assert b.Valid(streaming) by { NothingFlat(); }
    Receive(s, b, pieces, streaming);
    return b.chunks, b.body, b.phase == End;
  }

  lemma NothingFlat()
    ensures Flatten([]) == ""
  {
  }
}
