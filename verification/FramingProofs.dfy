/** What holds of the framing for every stream and every way of cutting it into chunks. */
module FramingProofs {
  import opened Bytes
  import opened Framing

  /** A state between two chunks: nothing complete is waiting, and nothing was read beyond what may be. */
  predicate Waiting(k: Kind, pending: seq<byte>) {
    !Completes(k, pending) && Readable(k, pending) == pending
  }

  /** Feeding leaves a waiting state and hands over only complete frames; it leaves input unread only if stuck. */
  lemma {:induction false} FeedKeeps(k: Kind, pending: seq<byte>, chunk: seq<byte>)
    ensures var fed := Feed(k, pending, chunk);
            && Waiting(k, fed.pending)
            && (forall f :: f in fed.frames ==> HoldsFrame(k, f) && |f| <= BufLen(k))
            && (fed.unread != [] ==> Stuck(k, fed.pending))
    decreases |pending| + |chunk|
  {
    var s := pending + chunk;
    ReadableIsReadable(k, s);
    if Completes(k, s) {
      ReadableHead(k, s);
      FeedKeeps(k, [], s[|Readable(k, s)|..]);
    }
  }

  lemma {:induction false} RunKeeps(k: Kind, pending: seq<byte>, chunks: seq<seq<byte>>)
    requires Waiting(k, pending)
    ensures var run := FeedAll(k, pending, chunks);
            && Waiting(k, run.pending)
            && (forall f :: f in run.frames ==> HoldsFrame(k, f) && |f| <= BufLen(k))
    decreases chunks
  {
    if chunks != [] {
      FeedKeeps(k, pending, chunks[0]);
      RunKeeps(k, Feed(k, pending, chunks[0]).pending, chunks[1..]);
    }
  }

  /** A run can be continued chunk by chunk. */
  lemma {:induction false} RunSnoc(k: Kind, pending: seq<byte>, chunks: seq<seq<byte>>, c: seq<byte>)
    ensures var run, all := FeedAll(k, pending, chunks), FeedAll(k, pending, chunks + [c]);
            var last := Feed(k, run.pending, c);
            all.frames == run.frames + last.frames && all.pending == last.pending
    decreases chunks
  {
    hide Feed;
    if chunks == [] {
      assert chunks + [c] == [c] && [c][1..] == [];
    } else {
      assert (chunks + [c])[0] == chunks[0] && (chunks + [c])[1..] == chunks[1..] + [c];
      RunSnoc(k, Feed(k, pending, chunks[0]).pending, chunks[1..], c);
    }
  }

  // ----- the first frame ---------------------------------------------------------------------

  lemma FeedIncomplete(k: Kind, pending: seq<byte>, chunk: seq<byte>, later: seq<byte>)
    requires !Completes(k, pending + chunk)
    ensures var fed := Feed(k, pending, chunk);
            && fed.frames == []
            && (Completes(k, fed.pending + later) <==> Completes(k, pending + chunk + later))
            && (fed.pending == pending + chunk
                || (Stuck(k, pending + chunk) && !Completes(k, pending + chunk + later)
                    && Readable(k, fed.pending + later) == Readable(k, pending + chunk + later)))
  {
    var s := pending + chunk;
    if Readable(k, s) != s {
      ReadableIsReadable(k, s);
      StuckStays(k, s, later);
      StuckStays(k, Readable(k, s), later);
    }
  }

  /** `f` starts with a complete frame, and that frame is the part of `s` from the first header on. */
  predicate OpensStream(k: Kind, f: seq<byte>, s: seq<byte>) {
    && HoldsFrame(k, f)
    && var h, n := FirstHead(k, s), Declared(k, f);
    0 <= h && h + n <= |s| && n <= |f| && f[..n] == s[h..h + n]
  }

  lemma WindowInStream(k: Kind, s: seq<byte>)
    requires Completes(k, s)
    ensures var h, w := FirstHead(k, s), Window(k, s);
            h + |w| == |Readable(k, s)| <= |s| && forall n :: 0 <= n <= |w| ==> w[..n] == s[h..h + n]
  {
    ReadableHead(k, s);
  }

  lemma WindowOpens(k: Kind, s: seq<byte>, later: seq<byte>)
    requires Completes(k, s)
    ensures Completes(k, s + later) && OpensStream(k, Window(k, s), s + later)
  {
    hide HeadAt, Declared, Window, Readable;
    CompletesMonotone(k, s, later);
    FirstHeadStable(k, s, later);
    DeclaredPositive(k, Window(k, s));
    WindowInStream(k, s);
    var h, n := FirstHead(k, s), Declared(k, Window(k, s));
    assert s[h..h + n] == (s + later)[h..h + n];
  }

  /** Chunk independence of the first frame, from any waiting state. */
  lemma {:induction false} FirstFrame(k: Kind, pending: seq<byte>, chunks: seq<seq<byte>>)
    requires Waiting(k, pending)
    ensures var s, run := pending + Flatten(chunks), FeedAll(k, pending, chunks);
            && (run.frames != [] <==> Completes(k, s))
            && (run.frames == [] ==> run.pending == Readable(k, s))
            && (run.frames != [] ==> OpensStream(k, run.frames[0], s))
    decreases chunks
  {
    hide Completes, Readable, Window, Stuck, OpensStream;
    if chunks == [] {
      assert pending + Flatten(chunks) == pending;
    } else {
      var s, later := pending + chunks[0], Flatten(chunks[1..]);
      assert pending + Flatten(chunks) == s + later;
      if Completes(k, s) {
        WindowOpens(k, s, later);
      } else {
        FeedKeeps(k, pending, chunks[0]);
        var next := Feed(k, pending, chunks[0]).pending;
        FeedIncomplete(k, pending, chunks[0], later);
        FirstFrame(k, next, chunks[1..]);
        OpensOnlyIfComplete(k, next + later, s + later);
      }
    }
  }

  lemma OpensOnlyIfComplete(k: Kind, t: seq<byte>, s: seq<byte>)
    requires t == s || !Completes(k, t)
    ensures Completes(k, t) ==> forall f :: OpensStream(k, f, t) ==> OpensStream(k, f, s)
  {
    hide Completes, OpensStream;
  }

  /** However a stream is cut up, whether a first frame is completed, and its declared bytes, are a matter of
      the stream alone: it is the bytes from the first header on. */
  lemma FirstFrameIsChunkIndependent(k: Kind, chunks: seq<seq<byte>>, others: seq<seq<byte>>)
    requires Flatten(chunks) == Flatten(others)
    ensures var one, two := FeedAll(k, [], chunks).frames, FeedAll(k, [], others).frames;
            && (one != [] <==> two != [])
            && (one != [] ==>
                  && HoldsFrame(k, one[0]) && HoldsFrame(k, two[0])
                  && Declared(k, one[0]) == Declared(k, two[0])
                  && one[0][..Declared(k, one[0])] == two[0][..Declared(k, one[0])])
  {
    hide Completes, Readable, OpensStream, HoldsFrame, Declared, HeadAt, FeedAll;
    NothingWaits(k);
    FirstFrame(k, [], chunks);
    FirstFrame(k, [], others);
    var one, two := FeedAll(k, [], chunks).frames, FeedAll(k, [], others).frames;
    if one != [] {
      OpeningIsUnique(k, one[0], two[0], [] + Flatten(chunks));
    }
  }

  lemma OpeningIsUnique(k: Kind, f: seq<byte>, g: seq<byte>, s: seq<byte>)
    requires OpensStream(k, f, s) && OpensStream(k, g, s)
    ensures HoldsFrame(k, f) && HoldsFrame(k, g) && Declared(k, f) == Declared(k, g) <= |f|
    ensures f[..Declared(k, f)] == g[..Declared(k, f)]
  {
    hide HeadAt, FirstHead, Val;
    DeclaredPositive(k, f);
    DeclaredPositive(k, g);
    var h, n, m := FirstHead(k, s), Declared(k, f), Declared(k, g);
    SameByte(f, s, h, n, 1); SameByte(f, s, h, n, 4); SameByte(f, s, h, n, 5);
    SameByte(g, s, h, m, 1); SameByte(g, s, h, m, 4); SameByte(g, s, h, m, 5);
  }

  lemma SameByte(f: seq<byte>, s: seq<byte>, h: nat, n: nat, i: nat)
    requires i < n <= |f| && h + n <= |s| && f[..n] == s[h..h + n]
    ensures f[i] == s[h + i]
  {
    assert f[..n][i] == s[h..h + n][i];
  }

  lemma NothingWaits(k: Kind)
    ensures Waiting(k, [])
  {
  }

  lemma EmptyFeed(k: Kind)
    ensures Feed(k, [], []) == Fed([], [], [])
  {
    NothingWaits(k);
    var none: seq<byte> := [];
    assert none + none == none;
  }

  // ----- all frames, when no chunk runs past a frame's end -----------------------------------

  /** A plain parser: skip to the next header, take the frame it declares, go on behind it. */
  function Greedy(k: Kind, s: seq<byte>): seq<seq<byte>>
    decreases |s|
  {
    if Completes(k, s) then
      ReadableHead(k, s);
      DeclaredPositive(k, Window(k, s));
      var h, n := FirstHead(k, s), Declared(k, Window(k, s));
      [s[h..h + n]] + Greedy(k, s[h + n..])
    else []
  }

  /** Every frame that the chunk completes ends where the buffer ends: nothing behind it is swallowed with it. */
  predicate Exact(k: Kind, pending: seq<byte>, chunk: seq<byte>)
    decreases |pending| + |chunk|
  {
    var s := pending + chunk;
    Completes(k, s) ==>
      && |Window(k, s)| == Declared(k, Window(k, s))
      && (ReadableHead(k, s); Exact(k, [], s[|Readable(k, s)|..]))
  }

  predicate AllExact(k: Kind, pending: seq<byte>, chunks: seq<seq<byte>>)
    decreases chunks
  {
    chunks == [] || (Exact(k, pending, chunks[0]) && AllExact(k, Feed(k, pending, chunks[0]).pending, chunks[1..]))
  }

  lemma GreedyStops(k: Kind, s: seq<byte>)
    requires !Completes(k, s)
    ensures Greedy(k, s) == []
  {
  }

  lemma GreedyStep(k: Kind, s: seq<byte>)
    requires Completes(k, s)
    ensures var h, n := FirstHead(k, s), Declared(k, Window(k, s));
            0 <= h && h + n <= |s| && Greedy(k, s) == [s[h..h + n]] + Greedy(k, s[h + n..])
  {
    ReadableHead(k, s);
    DeclaredPositive(k, Window(k, s));
  }

  /** The plain parser on a stream whose front completes a frame. */
  lemma GreedyGoesOn(k: Kind, s: seq<byte>, later: seq<byte>)
    requires Completes(k, s)
    ensures var w := Window(k, s);
            var n, g := Declared(k, w), Greedy(k, s + later);
            && 0 < n <= |w| && g != [] && g[0] == w[..n] && (g[0] == w <==> |w| == n)
            && (|w| == n ==> g[1..] == Greedy(k, s[|Readable(k, s)|..] + later))
  {
    hide HeadAt, HoldsFrame, FirstHead, Declared, Greedy, Window, Readable;
    DeclaredPositive(k, Window(k, s));
    CompletesMonotone(k, s, later);
    GreedyStep(k, s + later);
    FirstHeadStable(k, s, later);
    WindowInStream(k, s);
    var h, n, r := FirstHead(k, s), Declared(k, Window(k, s)), Readable(k, s);
    assert (s + later)[h..h + n] == s[h..h + n];
    assert (s + later)[h + n..] == s[h + n..] + later;
  }

  /** One chunk against the plain parser, whatever comes later: an exact chunk gives the parser's frames and leaves the
      parser's rest; one that is not has handed over a buffer that the parser never gives. */
  lemma {:induction false} FeedAgainstGreedy(k: Kind, pending: seq<byte>, chunk: seq<byte>, later: seq<byte>)
    ensures var fed, g := Feed(k, pending, chunk), Greedy(k, pending + chunk + later);
            && (Exact(k, pending, chunk) ==> g == fed.frames + Greedy(k, fed.pending + later))
            && (!Exact(k, pending, chunk) ==> !(fed.frames <= g))
    decreases |pending| + |chunk|
  {
    hide HoldsFrame, FirstHead, Readable, Window, Stuck, Declared, Greedy;
    var s, fed := pending + chunk, Feed(k, pending, chunk);
    if Completes(k, s) {
      ReadableNonempty(k, s);
      GreedyGoesOn(k, s, later);
      var w, tail, g := Window(k, s), s[|Readable(k, s)|..], Greedy(k, s + later);
      FeedAgainstGreedy(k, [], tail, later);
      assert [] + tail == tail;
      assert Exact(k, pending, chunk) <==> g[0] == w && Exact(k, [], tail);
      BothHeads(fed.frames, w, Feed(k, [], tail).frames, g, Greedy(k, fed.pending + later));
    } else {
      IncompleteAgainstGreedy(k, pending, chunk, later);
    }
  }

  /** Two lists of frames, compared by their heads and their rests. */
  lemma BothHeads(fs: seq<seq<byte>>, w: seq<byte>, more: seq<seq<byte>>, g: seq<seq<byte>>, rest: seq<seq<byte>>)
    requires fs == [w] + more && g != []
    ensures g == fs + rest <==> g[0] == w && g[1..] == more + rest
    ensures fs <= g <==> g[0] == w && more <= g[1..]
  {
    assert g == [g[0]] + g[1..];
    if g[0] == w && more <= g[1..] { assert g[..|fs|] == fs; }
    if fs <= g { assert g[1..][..|more|] == more; }
    if g == fs + rest { assert g[1..] == more + rest; }
    if g[0] == w && g[1..] == more + rest { assert g == fs + rest; }
  }

  lemma IncompleteAgainstGreedy(k: Kind, pending: seq<byte>, chunk: seq<byte>, later: seq<byte>)
    requires !Completes(k, pending + chunk)
    ensures var fed := Feed(k, pending, chunk);
            Exact(k, pending, chunk) && fed.frames == []
              && Greedy(k, pending + chunk + later) == Greedy(k, fed.pending + later)
  {
    hide HoldsFrame, FirstHead, Readable, Window, Stuck, Declared, Greedy;
    FeedIncomplete(k, pending, chunk, later);
    var s, p := pending + chunk, Feed(k, pending, chunk).pending;
    if p != s {
      GreedyStops(k, p + later);
      GreedyStops(k, s + later);
    }
  }

  /** For every chunking: the frames are those of the plain parser if and only if every chunk is exact. */
  lemma {:induction false} GreedyIffExact(k: Kind, pending: seq<byte>, chunks: seq<seq<byte>>)
    requires Waiting(k, pending)
    ensures FeedAll(k, pending, chunks).frames == Greedy(k, pending + Flatten(chunks)) <==> AllExact(k, pending, chunks)
    decreases chunks
  {
    hide Completes, Readable, Feed, Exact, Greedy;
    if chunks == [] {
      assert pending + Flatten(chunks) == pending;
      WaitingStops(k, pending);
    } else {
      var fed, later := Feed(k, pending, chunks[0]), Flatten(chunks[1..]);
      assert pending + Flatten(chunks) == pending + chunks[0] + later;
      FeedKeeps(k, pending, chunks[0]);
      FeedAgainstGreedy(k, pending, chunks[0], later);
      GreedyIffExact(k, fed.pending, chunks[1..]);
      SamePrefix(fed.frames, FeedAll(k, fed.pending, chunks[1..]).frames, Greedy(k, fed.pending + later));
    }
  }

  lemma WaitingStops(k: Kind, pending: seq<byte>)
    requires Waiting(k, pending)
    ensures Greedy(k, pending) == []
  {
    GreedyStops(k, pending);
  }

  lemma SamePrefix(a: seq<seq<byte>>, b: seq<seq<byte>>, c: seq<seq<byte>>)
    ensures a <= a + b && (a + b == a + c <==> b == c)
  {
    assert (a + b)[|a|..] == b && (a + c)[|a|..] == c;
  }

  /** A frame handed over with nothing behind it. */
  predicate Alone(k: Kind, f: seq<byte>) {
    HoldsFrame(k, f) && |f| == Declared(k, f)
  }

  lemma {:induction false} ExactIffAlone(k: Kind, pending: seq<byte>, chunk: seq<byte>)
    ensures Exact(k, pending, chunk) <==> forall f :: f in Feed(k, pending, chunk).frames ==> Alone(k, f)
    decreases |pending| + |chunk|
  {
    hide Readable, Window, Stuck, Declared;
    var s := pending + chunk;
    if Completes(k, s) {
      ReadableNonempty(k, s);
      var tail := s[|Readable(k, s)|..];
      ExactIffAlone(k, [], tail);
      var all, more := Feed(k, pending, chunk).frames, Feed(k, [], tail).frames;
      assert all == [Window(k, s)] + more;
      assert all[0] == Window(k, s) && forall f :: f in all <==> f == Window(k, s) || f in more;
      assert Exact(k, pending, chunk) <==> Alone(k, Window(k, s)) && Exact(k, [], tail);
    } else {
      assert Exact(k, pending, chunk);
      assert Feed(k, pending, chunk).frames == [];
    }
  }

  /** The same condition, told from the buffers handed over: each has exactly the length that it declares. */
  lemma {:induction false} AllExactIffAlone(k: Kind, pending: seq<byte>, chunks: seq<seq<byte>>)
    ensures AllExact(k, pending, chunks) <==> forall f :: f in FeedAll(k, pending, chunks).frames ==> Alone(k, f)
    decreases chunks
  {
    hide Feed, Exact, Alone;
    if chunks != [] {
      ExactIffAlone(k, pending, chunks[0]);
      AllExactIffAlone(k, Feed(k, pending, chunks[0]).pending, chunks[1..]);
    }
  }

  /** Whenever a chunk completes a frame, that frame ends where the chunk ends. */
  predicate NoOverrun(k: Kind, pending: seq<byte>, chunks: seq<seq<byte>>)
    decreases chunks
  {
    chunks == [] ||
    (var s := pending + chunks[0];
     && (Completes(k, s) ==> |s| == FirstHead(k, s) + Declared(k, Window(k, s)))
     && NoOverrun(k, Feed(k, pending, chunks[0]).pending, chunks[1..]))
  }

  /** Without overruns the receiver is the plain parser: then every chunk is exact. */
  lemma {:induction false} TightRunsAreGreedy(k: Kind, pending: seq<byte>, chunks: seq<seq<byte>>)
    requires Waiting(k, pending) && NoOverrun(k, pending, chunks)
    ensures AllExact(k, pending, chunks) && FeedAll(k, pending, chunks).frames == Greedy(k, pending + Flatten(chunks))
    decreases chunks
  {
    hide Completes, Readable, Window, Declared, Feed, Exact, Greedy;
    GreedyIffExact(k, pending, chunks);
    if chunks != [] {
      var s := pending + chunks[0];
      if Completes(k, s) { TightIsExact(k, pending, chunks[0]); } else { IncompleteIsExact(k, pending, chunks[0]); }
      FeedKeeps(k, pending, chunks[0]);
      TightRunsAreGreedy(k, Feed(k, pending, chunks[0]).pending, chunks[1..]);
    }
  }

  lemma IncompleteIsExact(k: Kind, pending: seq<byte>, chunk: seq<byte>)
    requires !Completes(k, pending + chunk)
    ensures Exact(k, pending, chunk)
  {
  }

  lemma TightIsExact(k: Kind, pending: seq<byte>, chunk: seq<byte>)
    requires var s := pending + chunk; Completes(k, s) && |s| == FirstHead(k, s) + Declared(k, Window(k, s))
    ensures Exact(k, pending, chunk)
  {
    var s := pending + chunk;
    ReadableHead(k, s);
    DeclaredPositive(k, Window(k, s));
    assert Readable(k, s) == s && s[|s|..] == [];
    NothingWaits(k);
    var none: seq<byte> := [];
    assert none + none == none;
  }

  /** A full Tuya buffer with more input behind it runs past the frame's end and is exact all the same. */
  lemma OverrunMayBeExact(f: seq<byte>, b: byte)
    requires |f| == 128 && Alone(Tuya, f)
    ensures !NoOverrun(Tuya, [], [f + [b]]) && AllExact(Tuya, [], [f + [b]])
  {
    var s := f + [b];
    assert [] + s == s;
    assert HeadAt(Tuya, s, 0);
    FirstHeadIs(Tuya, s, 0);
    assert Window(Tuya, s) == f && Readable(Tuya, s) == f;
    assert s[|f|..] == [b];
    assert [] + [b] == [b];
    assert FirstHead(Tuya, [b]) < 0;
    var chunks := [s];
    assert chunks[0] == s && chunks[1..] == [];
  }

  /** Bytes that arrive one at a time never overrun a frame. */
  lemma {:induction false} SingleBytesNeverOverrun(k: Kind, pending: seq<byte>, chunks: seq<seq<byte>>)
    requires Waiting(k, pending) && forall c :: c in chunks ==> |c| <= 1
    ensures NoOverrun(k, pending, chunks)
    decreases chunks
  {
    if chunks != [] {
      var c := chunks[0];
      assert c in chunks;
      var s := pending + c;
      if Completes(k, s) { LastByteCompletes(k, pending, c); }
      FeedKeeps(k, pending, c);
      SingleBytesNeverOverrun(k, Feed(k, pending, c).pending, chunks[1..]);
    }
  }

  lemma LastByteCompletes(k: Kind, pending: seq<byte>, c: seq<byte>)
    requires Waiting(k, pending) && |c| <= 1 && Completes(k, pending + c)
    ensures |pending + c| == FirstHead(k, pending + c) + Declared(k, Window(k, pending + c))
  {
    var s := pending + c;
    var h := FirstHead(k, s);
    var n := Declared(k, Window(k, s));
    WindowOpens(k, s, []);
    assert s + [] == s;
    if |s| > h + n {
      SmallerStillCompletes(k, pending, c);
    }
  }

  lemma SmallerStillCompletes(k: Kind, s: seq<byte>, c: seq<byte>)
    requires Completes(k, s + c) && FirstHead(k, s + c) + Declared(k, Window(k, s + c)) <= |s|
    ensures Completes(k, s)
  {
    var h, w := FirstHead(k, s + c), Window(k, s + c);
    var n := Declared(k, w);
    DeclaredPositive(k, w);
    forall i: nat | i < h ensures !HeadAt(k, s, i) {
      assert !HeadAt(k, s + c, i);
    }
    FirstHeadIs(k, s, h);
    var v := Window(k, s);
    assert |v| >= n;
    assert forall i :: 0 <= i < n ==> v[i] == s[h + i] == (s + c)[h + i] == w[i];
  }

  /** So a receiver fed byte by byte is the plain parser, on every stream. */
  lemma ByteByByte(k: Kind, s: seq<byte>)
    ensures FeedAll(k, [], Singles(s)).frames == Greedy(k, s)
  {
    NothingWaits(k);
    SinglesFlatten(s);
    SingleBytesNeverOverrun(k, [], Singles(s));
    TightRunsAreGreedy(k, [], Singles(s));
    assert [] + s == s;
  }

  function Singles(s: seq<byte>): (cs: seq<seq<byte>>)
    ensures forall c :: c in cs ==> |c| <= 1
  {
    if s == [] then [] else [[s[0]]] + Singles(s[1..])
  }

  lemma {:induction false} SinglesFlatten(s: seq<byte>)
    ensures Flatten(Singles(s)) == s
  {
    if s != [] { SinglesFlatten(s[1..]); }
  }

  // ----- what an overrun costs ---------------------------------------------------------------

  /** Frames of the electric-control board, back to back in one chunk: every second one is swallowed with
      its predecessor, because the buffer takes 32 bytes and is then cleared. */
  lemma {:induction false} BackToBackLosesEverySecond(fs: seq<seq<byte>>)
    requires forall f :: f in fs ==> |f| == 16 && HeadAt(Mcu, f, 0)
    ensures var got := Feed(Mcu, [], Flatten(fs)).frames;
            && |got| == (|fs| + 1) / 2
            && forall i :: 0 <= i < |got| ==> |got[i]| >= 16 && got[i][..16] == fs[2 * i]
    decreases |fs|
  {
    hide Completes, Readable, Window, HeadAt, Feed;
    if fs == [] {
      EmptyFeed(Mcu);
    } else {
      var f, tail := fs[0], Flatten(fs[1..]);
      assert f in fs && Flatten(fs) == f + tail;
      if |fs| == 1 {
        FeedLeading(f, tail, []);
        EmptyFeed(Mcu);
      } else {
        var g, rest := fs[1], Flatten(fs[2..]);
        assert g in fs && fs[1..][0] == g && fs[1..][1..] == fs[2..] && tail == g + rest;
        BackToBackLosesEverySecond(fs[2..]);
        FeedLeading(f, tail, rest);
        var got, later := Feed(Mcu, [], Flatten(fs)).frames, Feed(Mcu, [], rest).frames;
        forall i | 0 <= i < |got| ensures |got[i]| >= 16 && got[i][..16] == fs[2 * i] {
          if i > 0 { assert got[i] == later[i - 1] && fs[2..][2 * (i - 1)] == fs[2 * i]; }
        }
      }
    }
  }

  lemma FeedLeading(f: seq<byte>, tail: seq<byte>, rest: seq<byte>)
    requires |f| == 16 && HeadAt(Mcu, f, 0)
    requires (tail == [] && rest == []) || (|tail| >= 16 && rest == tail[16..])
    ensures var got := Feed(Mcu, [], f + tail).frames;
            && got != [] && |got[0]| >= 16 && got[0][..16] == f && got[1..] == Feed(Mcu, [], rest).frames
  {
    hide Completes, HeadAt;
    LeadingFrame(f, tail);
    var s := f + tail;
    assert [] + s == s;
    assert s[|Readable(Mcu, s)|..] == rest;
  }

  lemma LeadingFrame(f: seq<byte>, tail: seq<byte>)
    requires |f| == 16 && HeadAt(Mcu, f, 0)
    ensures var s := f + tail;
            && Completes(Mcu, s) && FirstHead(Mcu, s) == 0 && |Window(Mcu, s)| >= 16 && Window(Mcu, s)[..16] == f
            && Readable(Mcu, s) == if |s| > 32 then s[..32] else s
  {
    var s := f + tail;
    FirstHeadIs(Mcu, s, 0);
    assert HeadAt(Mcu, Window(Mcu, s), 0);
    assert Val(0x10) == 16;
    assert Window(Mcu, s)[..16] == f;
  }

  // ----- order and ownership of bytes --------------------------------------------------------

  predicate PieceAt(f: seq<byte>, s: seq<byte>, p: nat) {
    p + |f| <= |s| && s[p..p + |f|] == f
  }

  /** The frames are pieces of the stream, in stream order, no byte used twice. */
  ghost predicate Pieces(frames: seq<seq<byte>>, s: seq<byte>)
    decreases frames
  {
    frames == [] || exists p: nat :: PieceAt(frames[0], s, p) && Pieces(frames[1..], s[p + |frames[0]|..])
  }

  lemma {:induction false} PiecesInLonger(frames: seq<seq<byte>>, a: seq<byte>, s: seq<byte>, b: seq<byte>)
    requires Pieces(frames, s)
    ensures Pieces(frames, a + s + b)
    decreases frames
  {
    if frames != [] {
      var f := frames[0];
      var p: nat :| PieceAt(f, s, p) && Pieces(frames[1..], s[p + |f|..]);
      PieceShift(f, a, s, b, p);
      PiecesInLonger(frames[1..], [], s[p + |f|..], b);
    }
  }

  lemma PieceShift(f: seq<byte>, a: seq<byte>, s: seq<byte>, b: seq<byte>, p: nat)
    requires PieceAt(f, s, p)
    ensures var t, q := a + s + b, |a| + p;
            PieceAt(f, t, q) && t[q + |f|..] == [] + s[p + |f|..] + b
  {
    assert s == s[..p] + f + s[p + |f|..];
  }

  lemma {:induction false} PiecesAppend(one: seq<seq<byte>>, s: seq<byte>, two: seq<seq<byte>>, t: seq<byte>)
    requires Pieces(one, s) && Pieces(two, t)
    ensures Pieces(one + two, s + t)
    decreases one
  {
    if one == [] {
      assert one + two == two;
      PiecesInLonger(two, s, t, []);
      assert s + t + [] == s + t;
    } else {
      var f := one[0];
      var p: nat :| PieceAt(f, s, p) && Pieces(one[1..], s[p + |f|..]);
      PiecesAppend(one[1..], s[p + |f|..], two, t);
      assert (one + two)[0] == f && (one + two)[1..] == one[1..] + two;
      PieceInFront(f, s, t, p);
    }
  }

  lemma PieceInFront(f: seq<byte>, s: seq<byte>, t: seq<byte>, p: nat)
    requires PieceAt(f, s, p)
    ensures PieceAt(f, s + t, p) && (s + t)[p + |f|..] == s[p + |f|..] + t
  {
    assert (s + t)[p..p + |f|] == s[p..p + |f|];
  }

  lemma OnePiece(k: Kind, s: seq<byte>)
    requires Completes(k, s)
    ensures Pieces([Window(k, s)], Readable(k, s))
  {
    ReadableHead(k, s);
    var w, h := Window(k, s), FirstHead(k, s);
    var one := [w];
    assert PieceAt(one[0], Readable(k, s), h);
    assert one[1..] == [] && Pieces(one[1..], Readable(k, s)[h + |one[0]|..]);
  }

  /** One chunk takes its frames from the bytes before what it leaves pending. */
  lemma {:induction false} FeedPieces(k: Kind, pending: seq<byte>, chunk: seq<byte>) returns (used: seq<byte>)
    ensures var fed := Feed(k, pending, chunk);
            pending + chunk == used + fed.pending + fed.unread && Pieces(fed.frames, used)
    decreases |pending| + |chunk|
  {
    hide HoldsFrame, Window, FirstHead, Pieces;
    var s, fed := pending + chunk, Feed(k, pending, chunk);
    var r := Readable(k, s);
    if Completes(k, s) {
      ReadableNonempty(k, s);
      var tail := s[|r|..];
      var rest := Feed(k, [], tail);
      var a := FeedPieces(k, [], tail);
      OnePiece(k, s);
      PiecesAppend([Window(k, s)], r, rest.frames, a);
      used := r + a;
      UsedFirst(s, r, tail, a, rest.pending, rest.unread);
    } else {
      used := [];
      NoPieces();
    }
  }

  lemma UsedFirst(s: seq<byte>, r: seq<byte>, tail: seq<byte>, a: seq<byte>, p: seq<byte>, u: seq<byte>)
    requires s == r + tail && [] + tail == a + p + u
    ensures s == (r + a) + p + u
  {
    assert [] + tail == tail;
  }

  lemma Regroup(p: seq<byte>, c: seq<byte>, later: seq<byte>, used: seq<byte>, q: seq<byte>, u: seq<byte>)
    requires p + c == used + q + u
    ensures p + (c + later) == used + (q + (u + later))
  {
    assert p + (c + later) == (p + c) + later;
  }

  lemma ReadableNonempty(k: Kind, s: seq<byte>)
    requires Completes(k, s)
    ensures |Readable(k, s)| > 0
  {
    ReadableHead(k, s);
  }

  lemma NoPieces()
    ensures Pieces([], [])
  {
  }

  /** Over a whole run, for every chunking, the frames are pieces of the stream in order. */
  lemma {:induction false} RunPieces(k: Kind, pending: seq<byte>, chunks: seq<seq<byte>>)
    requires Waiting(k, pending)
    ensures Pieces(FeedAll(k, pending, chunks).frames, pending + Flatten(chunks))
    decreases chunks
  {
    hide Completes, Readable, Stuck, Feed, Pieces;
    if chunks == [] {
      NoPieces();
      PiecesInLonger([], pending, [], []);
      assert pending + Flatten(chunks) == pending + [] + [];
    } else {
      var fed, later := Feed(k, pending, chunks[0]), Flatten(chunks[1..]);
      var used := FeedPieces(k, pending, chunks[0]);
      FeedKeeps(k, pending, chunks[0]);
      var rest := FeedAll(k, fed.pending, chunks[1..]);
      Regroup(pending, chunks[0], later, used, fed.pending, fed.unread);
      if fed.unread == [] {
        RunPieces(k, fed.pending, chunks[1..]);
        PiecesAppend(fed.frames, used, rest.frames, fed.pending + later);
        assert [] + later == later;
      } else {
        StuckForEver(k, fed.pending, chunks[1..]);
        assert fed.frames + [] == fed.frames;
        var behind := fed.pending + (fed.unread + later);
        PiecesInLonger(fed.frames, [], used, behind);
        assert [] + used + behind == used + behind;
      }
    }
  }

  // ----- progress ----------------------------------------------------------------------------

  lemma {:induction false} UnreadIsTail(k: Kind, pending: seq<byte>, chunk: seq<byte>)
    ensures |Feed(k, pending, chunk).unread| <= |pending + chunk| - |Readable(k, pending + chunk)|
    decreases |pending| + |chunk|
  {
    var s := pending + chunk;
    if Completes(k, s) {
      ReadableHead(k, s);
      UnreadIsTail(k, [], s[|Readable(k, s)|..]);
    }
  }

  /** The receiver takes at least one byte of every chunk if and only if it is not stuck, that is, has not seen
      a Tuya header that declares more than 121 payload bytes with a full buffer behind it. */
  lemma {:induction false} ReadsOnIff(k: Kind, pending: seq<byte>, chunk: seq<byte>)
    requires Waiting(k, pending) && chunk != []
    ensures Feed(k, pending, chunk).unread == chunk <==> Stuck(k, pending)
  {
    var s := pending + chunk;
    if Stuck(k, pending) {
      StuckStays(k, pending, chunk);
      assert s[|pending|..] == chunk;
    } else {
      UnreadIsTail(k, pending, chunk);
      if FirstHead(k, pending) >= 0 {
        FirstHeadStable(k, pending, chunk);
      } else if FirstHead(k, s) >= 0 {
        assert FirstHead(k, s) + |Head(k)| > |pending| by { HeadReachesOut(k, pending, chunk); }
      }
    }
  }

  lemma HeadReachesOut(k: Kind, pending: seq<byte>, chunk: seq<byte>)
    requires FirstHead(k, pending) < 0 <= FirstHead(k, pending + chunk)
    ensures FirstHead(k, pending + chunk) + |Head(k)| > |pending|
  {
    var h := FirstHead(k, pending + chunk);
    assert !HeadAt(k, pending, h);
  }

  /** The electric-control receiver reads all its input, always. */
  lemma McuReadsEverything(pending: seq<byte>, chunk: seq<byte>)
    ensures Feed(Mcu, pending, chunk).unread == []
  {
    FeedKeeps(Mcu, pending, chunk);
    StuckIff(Mcu, Feed(Mcu, pending, chunk).pending);
  }

  /** A stuck receiver hands over nothing and reads nothing, for ever. */
  lemma {:induction false} StuckForEver(k: Kind, pending: seq<byte>, chunks: seq<seq<byte>>)
    requires Waiting(k, pending) && Stuck(k, pending)
    ensures FeedAll(k, pending, chunks) == Fed([], pending, Flatten(chunks))
    decreases chunks
  {
    if chunks != [] {
      StuckStays(k, pending, chunks[0]);
      assert (pending + chunks[0])[|pending|..] == chunks[0];
      StuckForEver(k, pending, chunks[1..]);
    }
  }
}
