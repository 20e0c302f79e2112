// src/driver/PLCS_12.c: the parser that finds frames in the bytes received,
// with a remainder carried from one chunk to the next.

module PlcsParser {
  import opened Bits
  import opened Sequences

  const CR: byte := 0x0d

  // ":",33
  const HEADER: seq<byte> := [0x22, 0x3a, 0x22, 0x2c, 0x33, 0x33]

  // A header that would run past the end does not match.
  predicate StartsFrame(s: seq<byte>) { HEADER <= s }

  function IndexOfCR(s: seq<byte>): (c: nat)
    requires CR in s
    ensures c < |s| && s[c] == CR && CR !in s[..c]
  {
    if s[0] == CR then 0 else
      var c := IndexOfCR(s[1..]);
      assert s[..c + 1] == [s[0]] + s[1..][..c];
      c + 1
  }

  datatype Parsed = Parsed(frames: seq<seq<byte>>, rest: seq<byte>)

  // The frames in s, header up to but not including the CR, and what is kept
  // for the next chunk.
  function Parse(s: seq<byte>): Parsed {
    if s == [] then Parsed([], [])
    else if !StartsFrame(s) then Parse(s[1..])
    else if CR !in s then Parsed([], s)
    else
      var c := IndexOfCR(s);
      var more := Parse(s[c + 1..]);
      Parsed([s[..c]] + more.frames, more.rest)
  }

  // The inner loop: the first CR from position i on, or the end.
  method FindCR(cvalue: seq<byte>, i: nat) returns (crOffset: nat)
    requires i < |cvalue|
    ensures i <= crOffset <= |cvalue| && CR !in cvalue[i..crOffset]
    ensures crOffset < |cvalue| ==> cvalue[crOffset] == CR
    ensures crOffset == |cvalue| ==> CR !in cvalue[i..]
  {
    crOffset := i;
    while crOffset < |cvalue| && cvalue[crOffset] != CR
      invariant i <= crOffset <= |cvalue|
      invariant CR !in cvalue[i..crOffset]
    {
      assert cvalue[i..crOffset + 1] == cvalue[i..crOffset] + [cvalue[crOffset]];
      crOffset := crOffset + 1;
    }
    assert crOffset == |cvalue| ==> cvalue[i..crOffset] == cvalue[i..];
  }

  // ParsingReceiveValue_12 up to the handling of each frame. The argument
  // remainSize of the caller only matters for an empty buffer, which the
  // caller never passes.
  method ParsingReceiveValue(cvalue: seq<byte>, previous: nat)
    returns (frames: seq<seq<byte>>, remainder: seq<byte>)
    requires cvalue != []
    ensures Parse(cvalue) == Parsed(frames, remainder)
  {
    hide Parse;
    frames := [];
    var len := |cvalue|;
    var remainSize: nat := previous;
    var i := 0;
    assert cvalue[0..] == cvalue;
    assert [] + Parse(cvalue).frames == Parse(cvalue).frames;
    while i < len
      invariant 0 <= i
      invariant i < len ==> Parse(cvalue) == Ahead(frames, Parse(cvalue[i..]))
      invariant i >= len ==> remainSize <= len && Parse(cvalue) == Parsed(frames, cvalue[remainSize..])
      decreases len - i
    {
      AtPosition(cvalue, i);
      if i + 6 <= len && cvalue[i..i + 6] == HEADER {
        var crOffset := FindCR(cvalue, i);
        if crOffset < len {
          FrameEnds(cvalue, i, crOffset);
          OneFrame(frames, cvalue[i..crOffset], Parse(cvalue[crOffset + 1..]));
          frames := frames + [cvalue[i..crOffset]];
          i := crOffset;
          remainSize := i + 1;
          EndOfBuffer(cvalue, remainSize);
        } else {
          remainSize := i;
          i := i + len - 1;
        }
      } else if i + 1 == len {
        remainSize := i + 1;
        EndOfBuffer(cvalue, remainSize);
      }
      i := i + 1;
      assert frames + [] == frames;
    }
    remainder := cvalue[remainSize..];
  }

  // What was found before position i, and what is found from there on.
  function Ahead(frames: seq<seq<byte>>, p: Parsed): Parsed { Parsed(frames + p.frames, p.rest) }

  lemma OneFrame(frames: seq<seq<byte>>, f: seq<byte>, p: Parsed)
    ensures Ahead(frames, Ahead([f], p)) == Ahead(frames + [f], p)
  {}

  lemma EndOfBuffer(s: seq<byte>, from: nat)
    requires from <= |s|
    ensures from == |s| ==> Parse(s[from..]) == Parsed([], s[from..]) && s[from..] == []
  {}

  lemma AtPosition(s: seq<byte>, i: nat)
    requires i < |s|
    ensures StartsFrame(s[i..]) <==> i + 6 <= |s| && s[i..i + 6] == HEADER
    ensures !StartsFrame(s[i..]) ==> Parse(s[i..]) == Parse(s[i + 1..])
    ensures StartsFrame(s[i..]) && CR !in s[i..] ==> Parse(s[i..]) == Parsed([], s[i..])
  {
    assert s[i..][1..] == s[i + 1..];
    if i + 6 <= |s| {
      assert s[i..][..6] == s[i..i + 6];
    }
  }

  lemma FrameEnds(s: seq<byte>, i: nat, c: nat)
    requires i <= c < |s| && s[c] == CR && CR !in s[i..c] && StartsFrame(s[i..])
    ensures Parse(s[i..]) == Ahead([s[i..c]], Parse(s[c + 1..]))
  {
    assert s[i..][..c - i] == s[i..c];
    FirstCR(s[i..], c - i);
    assert s[i..][c - i + 1..] == s[c + 1..];
  }

  lemma FirstCR(s: seq<byte>, c: nat)
    requires c < |s| && s[c] == CR && CR !in s[..c]
    ensures CR in s && IndexOfCR(s) == c
  {
    assert c > 0 ==> s[..c][0] == s[0];
    if c > 0 {
      assert s[1..][..c - 1] == s[..c][1..];
      FirstCR(s[1..], c - 1);
    }
  }

  // What is kept is a suffix, starts with the header and holds no CR.
  lemma {:induction false} RestIsOpenFrame(s: seq<byte>)
    ensures |Parse(s).rest| <= |s|
    ensures Parse(s).rest != [] ==> StartsFrame(Parse(s).rest) && CR !in Parse(s).rest
  {
    if s != [] {
      if !StartsFrame(s) {
        RestIsOpenFrame(s[1..]);
      } else if CR in s {
        RestIsOpenFrame(s[IndexOfCR(s) + 1..]);
      }
    }
  }

  // ----- What frames are

  // s is junk, a frame and its CR, junk, a frame and its CR, and so on, and
  // then junk and what is kept: a frame starts with ":",33 and has no CR, no
  // such header begins in junk, and what is kept is nothing or a frame so far.
  ghost predicate Explains(s: seq<byte>, junk: seq<seq<byte>>, frames: seq<seq<byte>>, rest: seq<byte>)
    decreases frames
  {
    && |junk| == |frames| + 1 && junk[0] <= s
    && (forall p :: 0 <= p < |junk[0]| ==> !HeaderFirst(s[p..]))
    && var t := s[|junk[0]|..];
       if frames == [] then t == rest && (rest == [] || (HeaderFirst(rest) && 0x0d !in rest))
       else
         && frames[0] + [0x0d] <= t
         && HeaderFirst(frames[0]) && 0x0d !in frames[0]
         && Explains(t[|frames[0]| + 1..], junk[1..], frames[1..], rest)
  }

  predicate HeaderFirst(s: seq<byte>) { [0x22, 0x3a, 0x22, 0x2c, 0x33, 0x33] <= s }

  lemma {:induction false} SkipJunk(s: seq<byte>, n: nat)
    requires n <= |s| && forall p :: 0 <= p < n ==> !HeaderFirst(s[p..])
    ensures Parse(s) == Parse(s[n..])
  {
    if n > 0 {
      assert s[0..] == s;
      forall p | 0 <= p < n - 1 ensures !HeaderFirst(s[1..][p..]) {
        assert s[1..][p..] == s[p + 1..];
      }
      SkipJunk(s[1..], n - 1);
      assert s[1..][n - 1..] == s[n..];
    } else {
      assert s[0..] == s;
    }
  }

  lemma FirstExplained(s: seq<byte>, junk: seq<seq<byte>>, frames: seq<seq<byte>>, rest: seq<byte>)
    requires Explains(s, junk, frames, rest) && frames != []
    ensures var t, c := s[|junk[0]|..], |frames[0]|;
      && c < |t| && t[..c] == frames[0] && t[c] == CR && CR !in t[..c] && StartsFrame(t)
      && Explains(t[c + 1..], junk[1..], frames[1..], rest)
  {
    var t, c := s[|junk[0]|..], |frames[0]|;
    assert t[..c + 1] == frames[0] + [0x0d];
    assert t[..c] == t[..c + 1][..c] == frames[0] && t[c] == t[..c + 1][c];
    assert HEADER <= t[..c];
  }

  lemma ClosedFrame(t: seq<byte>, c: nat)
    requires c < |t| && t[c] == CR && CR !in t[..c] && StartsFrame(t)
    ensures Parse(t) == Ahead([t[..c]], Parse(t[c + 1..]))
  {
    FirstCR(t, c);
  }

  lemma {:induction false} ExplainedIsParsed(s: seq<byte>, junk: seq<seq<byte>>, frames: seq<seq<byte>>,
                                             rest: seq<byte>)
    requires Explains(s, junk, frames, rest)
    ensures Parse(s) == Parsed(frames, rest)
    decreases frames
  {
    hide Parse, Explains;
    JunkSkipped(s, junk, frames, rest);
    if frames == [] {
      LastExplained(s, junk, rest);
    } else {
      var t := s[|junk[0]|..];
      FirstExplained(s, junk, frames, rest);
      ExplainedIsParsed(t[|frames[0]| + 1..], junk[1..], frames[1..], rest);
      ClosedFrame(t, |frames[0]|);
      assert frames == [frames[0]] + frames[1..];
    }
  }

  lemma JunkSkipped(s: seq<byte>, junk: seq<seq<byte>>, frames: seq<seq<byte>>, rest: seq<byte>)
    requires Explains(s, junk, frames, rest)
    ensures junk != [] && |junk[0]| <= |s| && Parse(s) == Parse(s[|junk[0]|..])
  {
    hide Parse;
    SkipJunk(s, |junk[0]|);
  }

  lemma LastExplained(s: seq<byte>, junk: seq<seq<byte>>, rest: seq<byte>)
    requires Explains(s, junk, [], rest)
    ensures Parse(s[|junk[0]|..]) == Parsed([], rest)
  {
    assert s[|junk[0]|..] == rest;
  }

  lemma {:induction false} ParsedIsExplained(s: seq<byte>) returns (junk: seq<seq<byte>>)
    ensures Explains(s, junk, Parse(s).frames, Parse(s).rest)
  {
    hide Explains, IndexOfCR;
    if s == [] || (StartsFrame(s) && CR !in s) {
      junk := [[]];
      NoFrame(s);
    } else if !StartsFrame(s) {
      var more := ParsedIsExplained(s[1..]);
      JunkSkipped(s[1..], more, Parse(s[1..]).frames, Parse(s[1..]).rest);
      junk := [[s[0]] + more[0]] + more[1..];
      JunkBefore(s, junk, more);
    } else {
      var c := IndexOfCR(s);
      var more := ParsedIsExplained(s[c + 1..]);
      junk := [[]] + more;
      HeaderBeforeCR(s);
      FrameBefore(s, c, more, Parse(s[c + 1..]).frames, Parse(s[c + 1..]).rest);
    }
  }

  lemma NoFrame(s: seq<byte>)
    requires s == [] || (StartsFrame(s) && CR !in s)
    ensures Explains(s, [[]], [], s)
  {
    assert s[0..] == s;
  }

  lemma FrameBefore(s: seq<byte>, c: nat, more: seq<seq<byte>>, frames: seq<seq<byte>>, rest: seq<byte>)
    requires 6 <= c < |s| && StartsFrame(s) && s[c] == CR && CR !in s[..c]
    requires Explains(s[c + 1..], more, frames, rest)
    ensures Explains(s, [[]] + more, [s[..c]] + frames, rest)
  {
    var f := s[..c];
    assert s[0..] == s && s[..c + 1] == f + [0x0d];
    assert f[..6] == s[..6] == HEADER;
    assert ([[]] + more)[1..] == more && ([f] + frames)[1..] == frames;
  }

  lemma JunkBefore(s: seq<byte>, junk: seq<seq<byte>>, more: seq<seq<byte>>)
    requires s != [] && !StartsFrame(s) && more != [] && junk == [[s[0]] + more[0]] + more[1..]
    requires Explains(s[1..], more, Parse(s[1..]).frames, Parse(s[1..]).rest)
    ensures Explains(s, junk, Parse(s).frames, Parse(s).rest)
  {
    assert s == [s[0]] + s[1..];
    forall p | 0 <= p < |junk[0]| ensures !HeaderFirst(s[p..]) {
      if p == 0 {
        assert s[0..] == s;
      } else {
        assert s[p..] == s[1..][p - 1..];
      }
    }
    assert s[|junk[0]|..] == s[1..][|more[0]|..];
    assert junk[1..] == more[1..];
  }

  // The frames and what is kept are those and no others.
  lemma {:induction false} ParseIff(s: seq<byte>, frames: seq<seq<byte>>, rest: seq<byte>)
    ensures Parse(s) == Parsed(frames, rest) <==> exists junk :: Explains(s, junk, frames, rest)
  {
    hide Parse, Explains;
    var junk := ParsedIsExplained(s);
    if Parse(s) == Parsed(frames, rest) {
      assert Explains(s, junk, frames, rest);
    }
    forall junk | Explains(s, junk, frames, rest) ensures Parse(s) == Parsed(frames, rest) {
      ExplainedIsParsed(s, junk, frames, rest);
    }
  }

  // ----- Chunks

  // Parsing x, then what is kept of it followed by y.
  function InTwoChunks(x: seq<byte>, y: seq<byte>): Parsed {
    var first := Parse(x);
    var second := Parse(first.rest + y);
    Parsed(first.frames + second.frames, second.rest)
  }

  // A header begins at position p of x, and ends in y.
  predicate StraddlesAt(x: seq<byte>, y: seq<byte>, p: nat) {
    p < |x| < p + 6 && StartsFrame((x + y)[p..])
  }

  ghost predicate Straddles(x: seq<byte>, y: seq<byte>) {
    exists p: nat :: StraddlesAt(x, y, p)
  }

  lemma HeaderHasNoCR()
    ensures CR !in HEADER
  {}

  // Dropping k bytes of x before which no header straddles.
  lemma StraddlesAfter(x: seq<byte>, y: seq<byte>, k: nat)
    requires k <= |x|
    requires forall p: nat :: p < k ==> !StraddlesAt(x, y, p)
    ensures Straddles(x, y) <==> Straddles(x[k..], y)
  {
    if Straddles(x, y) {
      var p: nat :| StraddlesAt(x, y, p);
      assert (x[k..] + y)[p - k..] == (x + y)[p..];
      assert StraddlesAt(x[k..], y, p - k);
    }
    if Straddles(x[k..], y) {
      var p: nat :| StraddlesAt(x[k..], y, p);
      assert (x + y)[p + k..] == (x[k..] + y)[p..];
      assert StraddlesAt(x, y, p + k);
    }
  }

  // No header straddles the end of x from before a CR in x.
  lemma NoneBeforeCR(x: seq<byte>, y: seq<byte>, c: nat)
    requires c < |x| && x[c] == CR
    ensures forall p: nat :: p < c + 1 ==> !StraddlesAt(x, y, p)
  {
    forall p: nat | p < c + 1 ensures !StraddlesAt(x, y, p) {
      if StraddlesAt(x, y, p) {
        assert (x + y)[p..][c - p] == CR;
        assert HEADER[c - p] == CR;
        HeaderHasNoCR();
        assert false;
      }
    }
  }

  lemma {:induction false} TooShortForHeader(x: seq<byte>)
    requires |x| < 6
    ensures Parse(x) == Parsed([], [])
  {
    if x != [] {
      TooShortForHeader(x[1..]);
    }
  }

  lemma {:induction false} SkipToFrame(y: seq<byte>, c: nat)
    requires c < |y| && y[c] == CR && CR !in y[..c]
    ensures Parse(y).rest == Parse(y[c + 1..]).rest
    ensures Parse(y).frames == Parse(y[c + 1..]).frames
         || (exists f :: |f| <= c && Parse(y).frames == [f] + Parse(y[c + 1..]).frames)
  {
    if StartsFrame(y) {
      FirstCR(y, c);
      var f := y[..c];
      assert |f| <= c && Parse(y).frames == [f] + Parse(y[c + 1..]).frames;
    } else if c > 0 {
      assert y[1..][..c - 1] == y[..c][1..];
      SkipToFrame(y[1..], c - 1);
      assert y[1..][c..] == y[c + 1..];
    }
  }

  // A header cut in two at the end of x, which is all there is of x.
  lemma CutHeaderIsMissed(x: seq<byte>, y: seq<byte>)
    requires x != [] && StraddlesAt(x, y, 0)
    ensures Parse(x + y) != InTwoChunks(x, y)
  {
    var s := x + y;
    assert s[0..] == s;
    TooShortForHeader(x);
    assert [] + y == y;
    if CR !in s {
      RestIsOpenFrame(y);
    } else {
      CutFrameIsMissed(x, y);
    }
  }

  lemma HeaderBeforeCR(s: seq<byte>)
    requires StartsFrame(s) && CR in s
    ensures IndexOfCR(s) >= 6
  {
    HeaderHasNoCR();
    forall i | 0 <= i < 6 ensures s[i] != CR {
      assert s[i] == HEADER[i];
    }
  }

  lemma CutFrameIsMissed(x: seq<byte>, y: seq<byte>)
    requires x != [] && |x| < 6 && StartsFrame(x + y) && CR in x + y
    ensures Parse(x + y).frames != Parse(y).frames
  {
    var s := x + y;
    var c := IndexOfCR(s);
    HeaderBeforeCR(s);
    assert s[|x|..] == y && s[..c][|x|..] == y[..c - |x|];
    assert y[c - |x|] == s[c];
    assert s[c + 1..] == y[c - |x| + 1..];
    hide Parse, IndexOfCR;
    SkipToFrame(y, c - |x|);
    ParseFrame(s);
    FramesDiffer(s[..c], Parse(s[c + 1..]).frames, Parse(y).frames);
  }

  lemma ParseFrame(s: seq<byte>)
    requires StartsFrame(s) && CR in s
    ensures Parse(s).frames == [s[..IndexOfCR(s)]] + Parse(s[IndexOfCR(s) + 1..]).frames
    ensures Parse(s).rest == Parse(s[IndexOfCR(s) + 1..]).rest
  {}

  lemma FramesDiffer(first: seq<byte>, more: seq<seq<byte>>, other: seq<seq<byte>>)
    requires other == more || exists f :: |f| < |first| && other == [f] + more
    ensures other != [first] + more
  {
    if other != more {
      var f :| |f| < |first| && other == [f] + more;
      assert other[0] == f && ([first] + more)[0] == first;
    }
  }

  // Splitting the bytes received into two chunks changes nothing, neither the
  // frames nor what is kept, if and only if the first chunk ends inside a
  // frame or no header straddles the split.
  lemma {:induction false} ChunkInvariance(x: seq<byte>, y: seq<byte>)
    ensures Parse(x + y) == InTwoChunks(x, y) <==> Parse(x).rest != [] || !Straddles(x, y)
    decreases |x|
  {
    hide Parse, StartsFrame, InTwoChunks, Straddles, IndexOfCR;
    if x == [] {
      NothingFirst(y);
    } else if StartsFrame(x) {
      if CR in x {
        CloseFrame(x, y);
        ChunkInvariance(x[IndexOfCR(x) + 1..], y);
      } else {
        OpenFrame(x, y);
      }
    } else if StartsFrame(x + y) {
      CutHeader(x, y);
    } else {
      SkipByte(x, y);
      ChunkInvariance(x[1..], y);
    }
  }

  lemma NothingFirst(y: seq<byte>)
    ensures [] + y == y && Parse(y) == InTwoChunks([], y) && !Straddles([], y)
  {
    assert [] + y == y;
    assert [] + Parse(y).frames == Parse(y).frames;
  }

  lemma OpenFrame(x: seq<byte>, y: seq<byte>)
    requires StartsFrame(x) && CR !in x
    ensures Parse(x).rest == x && Parse(x + y) == InTwoChunks(x, y)
  {
    assert [] + Parse(x + y).frames == Parse(x + y).frames;
  }

  lemma CutHeader(x: seq<byte>, y: seq<byte>)
    requires x != [] && !StartsFrame(x) && StartsFrame(x + y)
    ensures Parse(x).rest == [] && Straddles(x, y) && Parse(x + y) != InTwoChunks(x, y)
  {
    assert (x + y)[0..] == x + y;
    assert StraddlesAt(x, y, 0);
    TooShortForHeader(x);
    CutHeaderIsMissed(x, y);
  }

  lemma SkipByte(x: seq<byte>, y: seq<byte>)
    requires x != [] && !StartsFrame(x) && !StartsFrame(x + y)
    ensures Parse(x).rest == Parse(x[1..]).rest
    ensures Parse(x + y) == InTwoChunks(x, y) <==> Parse(x[1..] + y) == InTwoChunks(x[1..], y)
    ensures Straddles(x, y) <==> Straddles(x[1..], y)
  {
    assert (x + y)[1..] == x[1..] + y;
    assert (x + y)[0..] == x + y;
    StraddlesAfter(x, y, 1);
  }

  lemma CloseFrame(x: seq<byte>, y: seq<byte>)
    requires StartsFrame(x) && CR in x
    ensures var z := x[IndexOfCR(x) + 1..];
      && Parse(x).rest == Parse(z).rest
      && (Parse(x + y) == InTwoChunks(x, y) <==> Parse(z + y) == InTwoChunks(z, y))
      && (Straddles(x, y) <==> Straddles(z, y))
  {
    var c := IndexOfCR(x);
    var z := x[c + 1..];
    assert (x + y)[..c] == x[..c];
    FirstCR(x + y, c);
    assert (x + y)[c + 1..] == z + y;
    NoneBeforeCR(x, y, c);
    StraddlesAfter(x, y, c + 1);
    var f, again := x[..c], Parse(Parse(z).rest + y);
    assert InTwoChunks(x, y).frames == [f] + InTwoChunks(z, y).frames by {
      assert ([f] + Parse(z).frames) + again.frames == [f] + (Parse(z).frames + again.frames);
    }
    assert InTwoChunks(x, y).frames[1..] == InTwoChunks(z, y).frames;
    assert Parse(x + y).frames == [f] + Parse(z + y).frames;
    assert Parse(x + y).frames[1..] == Parse(z + y).frames;
  }

  // ----- A whole connection

  // Socket_Manager_12: each chunk is appended to what is kept and parsed.
  function Session(kept: seq<byte>, chunks: seq<seq<byte>>): Parsed
    decreases chunks
  {
    if chunks == [] then Parsed([], kept)
    else
      var now := Parse(kept + chunks[0]);
      var later := Session(now.rest, chunks[1..]);
      Parsed(now.frames + later.frames, later.rest)
  }

  // No chunk ends between frames with a header straddling its end.
  ghost predicate CleanSplits(kept: seq<byte>, chunks: seq<seq<byte>>)
    decreases chunks
  {
    chunks == [] ||
    var x := kept + chunks[0];
    && (Parse(x).rest != [] || !Straddles(x, Flat(chunks[1..])))
    && CleanSplits(Parse(x).rest, chunks[1..])
  }

  // ----- What is lost stays lost

  function FramesWeight(frames: seq<seq<byte>>): nat {
    if frames == [] then 0 else |frames[0]| + 1 + FramesWeight(frames[1..])
  }

  // The bytes accounted for: frames with their CR, and what is kept.
  function Weight(p: Parsed): nat { FramesWeight(p.frames) + |p.rest| }

  lemma {:induction false} WeightAppend(a: seq<seq<byte>>, b: seq<seq<byte>>)
    ensures FramesWeight(a + b) == FramesWeight(a) + FramesWeight(b)
  {
    if a == [] {
      assert a + b == b;
    } else {
      assert (a + b)[1..] == a[1..] + b;
      WeightAppend(a[1..], b);
    }
  }

  lemma {:induction false} WeightAtMost(s: seq<byte>)
    ensures Weight(Parse(s)) <= |s|
  {
    if s != [] {
      if !StartsFrame(s) {
        WeightAtMost(s[1..]);
      } else if CR in s {
        var c := IndexOfCR(s);
        WeightAtMost(s[c + 1..]);
        WeightAppend([s[..c]], Parse(s[c + 1..]).frames);
      }
    }
  }

  lemma CutHeaderLoses(x: seq<byte>, y: seq<byte>)
    requires x != [] && !StartsFrame(x) && StartsFrame(x + y)
    ensures Weight(InTwoChunks(x, y)) < Weight(Parse(x + y))
  {
    hide StartsFrame;
    ShortBeforeHeader(x, y);
    TooShortForHeader(x);
    assert [] + y == y && [] + Parse(y).frames == Parse(y).frames;
    if CR !in x + y {
      WeightAtMost(y);
    } else {
      CutFrameLoses(x, y);
    }
  }

  lemma ShortBeforeHeader(x: seq<byte>, y: seq<byte>)
    requires !StartsFrame(x) && StartsFrame(x + y)
    ensures |x| < 6
  {}

  lemma CutFrameLoses(x: seq<byte>, y: seq<byte>)
    requires x != [] && |x| < 6 && StartsFrame(x + y) && CR in x + y
    ensures Weight(Parse(y)) < Weight(Parse(x + y))
  {
    var s := x + y;
    var c := IndexOfCR(s);
    HeaderBeforeCR(s);
    assert s[|x|..] == y && s[..c][|x|..] == y[..c - |x|];
    assert y[c - |x|] == s[c];
    assert s[c + 1..] == y[c - |x| + 1..];
    hide Parse, IndexOfCR;
    SkipToFrame(y, c - |x|);
    ParseFrame(s);
    WeightAppend([s[..c]], Parse(s[c + 1..]).frames);
    SkippedWeight(Parse(y).frames, Parse(s[c + 1..]).frames, c - |x|);
  }

  lemma SkippedWeight(frames: seq<seq<byte>>, more: seq<seq<byte>>, c: nat)
    requires frames == more || exists f :: |f| <= c && frames == [f] + more
    ensures FramesWeight(frames) <= c + 1 + FramesWeight(more)
  {
    if frames != more {
      var f :| |f| <= c && frames == [f] + more;
      WeightAppend([f], more);
    }
  }

  // A header that straddles the split outside a frame costs bytes.
  lemma {:induction false} StraddlingLoses(x: seq<byte>, y: seq<byte>)
    requires Parse(x).rest == [] && Straddles(x, y)
    ensures Weight(InTwoChunks(x, y)) < Weight(Parse(x + y))
    decreases |x|
  {
    hide Parse, StartsFrame, InTwoChunks, Straddles, IndexOfCR;
    if x == [] {
      NothingFirst(y);
    } else if StartsFrame(x) {
      if CR in x {
        CloseFrame(x, y);
        StraddlingLoses(x[IndexOfCR(x) + 1..], y);
        CloseFrameWeight(x, y);
      } else {
        OpenFrame(x, y);
      }
    } else if StartsFrame(x + y) {
      CutHeaderLoses(x, y);
    } else {
      SkipByte(x, y);
      StraddlingLoses(x[1..], y);
      SkipByteParses(x, y);
    }
  }

  lemma SkipByteParses(x: seq<byte>, y: seq<byte>)
    requires x != [] && !StartsFrame(x) && !StartsFrame(x + y)
    ensures Parse(x + y) == Parse(x[1..] + y) && InTwoChunks(x, y) == InTwoChunks(x[1..], y)
  {
    assert (x + y)[1..] == x[1..] + y;
  }

  lemma CloseFrameWeight(x: seq<byte>, y: seq<byte>)
    requires StartsFrame(x) && CR in x
    ensures var c := IndexOfCR(x);
      && Weight(Parse(x + y)) == c + 1 + Weight(Parse(x[c + 1..] + y))
      && Weight(InTwoChunks(x, y)) == c + 1 + Weight(InTwoChunks(x[c + 1..], y))
  {
    var c := IndexOfCR(x);
    var z := x[c + 1..];
    assert (x + y)[..c] == x[..c] && (x + y)[c + 1..] == z + y;
    FirstCR(x + y, c);
    assert StartsFrame(x + y);
    ParseFrame(x);
    ParseFrame(x + y);
    hide Parse, IndexOfCR, StartsFrame;
    var f, again := x[..c], Parse(Parse(z).rest + y);
    Associative([f], Parse(z).frames, again.frames);
    FirstWeight(f, Parse(z + y).frames);
    FirstWeight(f, InTwoChunks(z, y).frames);
  }

  lemma FirstWeight(f: seq<byte>, more: seq<seq<byte>>)
    ensures FramesWeight([f] + more) == |f| + 1 + FramesWeight(more)
  {
    assert ([f] + more)[1..] == more;
  }

  // No session accounts for more than the whole does.
  lemma {:induction false} SessionWeight(kept: seq<byte>, chunks: seq<seq<byte>>)
    requires Parse(kept) == Parsed([], kept)
    ensures Weight(Session(kept, chunks)) <= Weight(Parse(kept + Flat(chunks)))
    ensures chunks != [] ==>
      Weight(Session(kept, chunks)) <= Weight(InTwoChunks(kept + chunks[0], Flat(chunks[1..])))
    decreases chunks
  {
    hide Parse, Straddles;
    if chunks == [] {
      assert kept + [] == kept;
    } else {
      var x, tail := kept + chunks[0], Flat(chunks[1..]);
      assert kept + Flat(chunks) == x + tail;
      RestParsesToItself(x);
      SessionWeight(Parse(x).rest, chunks[1..]);
      WeightAppend(Parse(x).frames, Session(Parse(x).rest, chunks[1..]).frames);
      WeightAppend(Parse(x).frames, Parse(Parse(x).rest + tail).frames);
      ChunkInvariance(x, tail);
      if Parse(x).rest == [] && Straddles(x, tail) {
        StraddlingLoses(x, tail);
      }
    }
  }

  // However the bytes of a connection are split, the frames delivered and what
  // is kept at the end are those of the whole, if and only if the splits are
  // clean: nothing later makes up for what an unclean split loses.
  lemma {:induction false} SessionIsParseIff(kept: seq<byte>, chunks: seq<seq<byte>>)
    requires Parse(kept) == Parsed([], kept)
    ensures Session(kept, chunks) == Parse(kept + Flat(chunks)) <==> CleanSplits(kept, chunks)
    decreases chunks
  {
    hide Parse, Straddles, InTwoChunks, Weight;
    if chunks == [] {
      assert kept + [] == kept;
    } else {
      var x, tail := kept + chunks[0], Flat(chunks[1..]);
      assert kept + Flat(chunks) == x + tail;
      RestParsesToItself(x);
      if Parse(x).rest == [] && Straddles(x, tail) {
        StraddlingLoses(x, tail);
        SessionWeight(kept, chunks);
      } else {
        ChunkInvariance(x, tail);
        SessionIsParseIff(Parse(x).rest, chunks[1..]);
        SameTail(x, tail, Session(Parse(x).rest, chunks[1..]));
      }
    }
  }

  lemma SameTail(x: seq<byte>, tail: seq<byte>, later: Parsed)
    requires Parse(x + tail) == InTwoChunks(x, tail)
    ensures Parsed(Parse(x).frames + later.frames, later.rest) == Parse(x + tail)
       <==> later == Parse(Parse(x).rest + tail)
  {
    var a, b := Parse(x).frames, Parse(Parse(x).rest + tail).frames;
    assert (a + later.frames)[|a|..] == later.frames && (a + b)[|a|..] == b;
  }

  lemma RestParsesToItself(s: seq<byte>)
    ensures Parse(Parse(s).rest) == Parsed([], Parse(s).rest)
  {
    RestIsOpenFrame(s);
  }
}
