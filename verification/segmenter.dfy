/** The streaming speech segmenter of `_chat`: the language model yields ever
    longer response strings; a watermark records how much of the text has
    already been handed to speech synthesis; whenever synthesis is idle, the
    text up to (and not including) the last delimiter is submitted; whatever
    remains when the stream ends is submitted last.  The external services
    are oracles: `stream` is the sequence of responses the model yields and
    `busy[i]` is what `is_speech_synthesising()` answered at yield `i`. */
module Segmenter {
  import opened Text
  import opened Routing

  /** The eight cut characters: ASCII and full-width comma, semicolon, full
      stop and question mark. */
  const Delimiters: seq<char> := [',', ';', '.', '?', '，', '；', '。', '？']

  /** `max(s.rfind(d) for d in ds)`: the last index of `s` holding any of the
      characters `ds`, or -1 when none of them occurs. */
  function LastOfAny(s: string, ds: seq<char>): (r: int)
    ensures -1 <= r < |s|
    ensures r >= 0 ==> s[r] in ds
    ensures forall j :: r < j < |s| ==> s[j] !in ds
    decreases |ds|
  {
    if ds == [] then -1
    else
      var here, rest := RFind(s, ds[0]), LastOfAny(s, ds[1..]);
      if here < rest then rest else here
  }

  /** The cut point the segmenter computes for a response: the position of
      its last delimiter, -1 when it has none. */
  function CutPoint(response: string): (r: int)
    ensures -1 <= r < |response|
    ensures r >= 0 ==> response[r] in Delimiters
    ensures forall j :: r < j < |response| ==> response[j] !in Delimiters
    decreases |response|
  {
    if response == [] then -1
    else if response[|response| - 1] in Delimiters then |response| - 1
    else CutPoint(response[..|response| - 1])
  }

  /** The cut point is what the node computes, the largest of the eight
      `rfind` results. */
  lemma CutPointIsLargestRFind(response: string)
    ensures CutPoint(response) == LastOfAny(response, Delimiters)
  {
  }

  /** One submission to speech synthesis: the raw text slice and the yield
      at which it was made (`|stream|` for the submission at stream end). */
  datatype Chunk = Chunk(at: nat, text: string)

  /** The segmenter's loop state: the watermark and the submissions so far. */
  datatype Progress = Progress(mark: nat, chunks: seq<Chunk>)

  /** The loop body for one yield: cut only when synthesis is idle and the
      last delimiter lies strictly beyond the watermark. */
  function Step(p: Progress, response: string, idle: bool, at: nat): (r: Progress)
    ensures p.mark <= r.mark
    ensures r.mark > p.mark ==> idle && r.mark == CutPoint(response)
  {
    var cut := CutPoint(response);
    if idle && cut > p.mark then Progress(cut, p.chunks + [Chunk(at, response[p.mark..cut])])
    else p
  }

  /** The loop state after the first `n` yields. */
  function Run(stream: seq<string>, busy: seq<bool>, n: nat): Progress
    requires |busy| == |stream| && n <= |stream|
  {
    if n == 0 then Progress(0, [])
    else Step(Run(stream, busy, n - 1), stream[n - 1], !busy[n - 1], n - 1)
  }

  /** The last response of the stream, "" for an empty stream. */
  function LastOr(stream: seq<string>): string
  {
    if stream == [] then "" else stream[|stream| - 1]
  }

  /** All submissions for a whole stream: those of the loop, then the
      remainder past the watermark if it is non-empty. */
  function Segments(stream: seq<string>, busy: seq<bool>): seq<Chunk>
    requires |busy| == |stream|
  {
    var p, last := Run(stream, busy, |stream|), LastOr(stream);
    if p.mark < |last| then p.chunks + [Chunk(|stream|, last[p.mark..])] else p.chunks
  }

  /** The streaming contract of the language model: each yield extends the
      previous one. */
  ghost predicate IsPrefixChain(stream: seq<string>)
  {
    forall i :: 0 < i < |stream| ==> stream[i - 1] <= stream[i]
  }

  /** Concatenation of the submitted slices, in submission order. */
  function Joined(cs: seq<Chunk>): string
  {
    if cs == [] then "" else Joined(cs[..|cs| - 1]) + cs[|cs| - 1].text
  }

  /** The texts handed to speech synthesis: each slice after the brand-name
      rewriting. */
  function Voiced(cs: seq<Chunk>): seq<string>
  {
    if cs == [] then [] else Voiced(cs[..|cs| - 1]) + [ReplaceResponseInformation(cs[|cs| - 1].text)]
  }

  /** Concatenation of a list of strings. */
  function Concat(ss: seq<string>): string
  {
    if ss == [] then "" else Concat(ss[..|ss| - 1]) + ss[|ss| - 1]
  }

  /** Loop invariant of the segmenter against the current response `cur`:
      the watermark stays within `cur`, the submissions so far concatenate to
      exactly the text below the watermark, a watermark past zero sits on a
      delimiter, and there are submissions exactly when the watermark has
      moved. */
  ghost predicate Covers(p: Progress, cur: string)
  {
    && p.mark <= |cur|
    && Joined(p.chunks) == cur[..p.mark]
    && (p.mark > 0 ==> p.mark < |cur| && cur[p.mark] in Delimiters)
    && (p.chunks == [] <==> p.mark == 0)
    && (forall k :: 0 < k < |p.chunks| ==> p.chunks[k].text != [] && p.chunks[k].text[0] in Delimiters)
  }

  /** One loop iteration keeps the invariant when the new response extends
      the previous one. */
  lemma StepCovers(p: Progress, prev: string, cur: string, idle: bool, at: nat)
    requires Covers(p, prev) && prev <= cur
    ensures Covers(Step(p, cur, idle, at), cur)
  {
    assert prev[..p.mark] == cur[..p.mark];
    var cut := CutPoint(cur);
    if idle && cut > p.mark {
      var c := Chunk(at, cur[p.mark..cut]);
      assert Joined(p.chunks + [c]) == Joined(p.chunks) + c.text by {
        assert (p.chunks + [c])[..|p.chunks|] == p.chunks;
      }
      assert cur[..p.mark] + cur[p.mark..cut] == cur[..cut];
      assert p.chunks != [] ==> c.text[0] == cur[p.mark] == prev[p.mark];
    } else if p.mark > 0 {
      assert prev[p.mark] == cur[p.mark];
    }
  }

  /** The invariant holds after every prefix of a prefix-growing stream. */
  lemma {:induction false} RunCovers(stream: seq<string>, busy: seq<bool>, n: nat)
    requires |busy| == |stream| && n <= |stream| && IsPrefixChain(stream)
    ensures Covers(Run(stream, busy, n), LastOr(stream[..n]))
  {
    if n > 0 {
      RunCovers(stream, busy, n - 1);
      var prev, cur := LastOr(stream[..n - 1]), stream[n - 1];
      assert LastOr(stream[..n]) == cur;
      assert prev <= cur by {
        if n > 1 { assert prev == stream[n - 2]; }
      }
      StepCovers(Run(stream, busy, n - 1), prev, cur, !busy[n - 1], n - 1);
    }
  }

  /** For any stream, the submissions so far join to exactly as many
      characters as the watermark has passed. */
  lemma {:induction false} RunJoinedLength(stream: seq<string>, busy: seq<bool>, n: nat)
    requires |busy| == |stream| && n <= |stream|
    ensures |Joined(Run(stream, busy, n).chunks)| == Run(stream, busy, n).mark
  {
    if n > 0 {
      RunJoinedLength(stream, busy, n - 1);
      var p, cur := Run(stream, busy, n - 1), stream[n - 1];
      var cut := CutPoint(cur);
      if !busy[n - 1] && cut > p.mark {
        var c := Chunk(n - 1, cur[p.mark..cut]);
        assert (p.chunks + [c])[..|p.chunks|] == p.chunks;
        assert Joined(p.chunks + [c]) == Joined(p.chunks) + c.text;
      }
    }
  }

  /** Round trip: for a prefix-growing stream the submitted slices, in order,
      concatenate to exactly the final response, with no character dropped
      or repeated. */
  lemma SegmentsReassemble(stream: seq<string>, busy: seq<bool>)
    requires |busy| == |stream| && IsPrefixChain(stream)
    ensures Joined(Segments(stream, busy)) == LastOr(stream)
  {
    var p, last := Run(stream, busy, |stream|), LastOr(stream);
    RunCovers(stream, busy, |stream|);
    assert stream[..|stream|] == stream;
    if p.mark < |last| {
      var c := Chunk(|stream|, last[p.mark..]);
      assert (p.chunks + [c])[..|p.chunks|] == p.chunks;
      assert last[..p.mark] + last[p.mark..] == last;
    }
  }

  /** The watermark never moves backwards and earlier submissions are never
      revised: the state after `m` yields is extended by the state after `n`. */
  lemma {:induction false} RunMonotone(stream: seq<string>, busy: seq<bool>, m: nat, n: nat)
    requires |busy| == |stream| && m <= n <= |stream|
    ensures Run(stream, busy, m).mark <= Run(stream, busy, n).mark
    ensures Run(stream, busy, m).chunks <= Run(stream, busy, n).chunks
    decreases n - m
  {
    if m < n {
      RunMonotone(stream, busy, m, n - 1);
    }
  }

  /** What each submission made inside the loop satisfies: it happened while
      synthesis was idle, at most one per yield and in yield order, its text
      is non-empty, and its length is the distance from the previous
      submission's cut (or the start) to the cut of its own yield, so the
      submissions so far end exactly where the last one's yield has its last
      delimiter. The watermark is the cut of the last submission. */
  lemma {:induction false} RunChunks(stream: seq<string>, busy: seq<bool>, n: nat)
    requires |busy| == |stream| && n <= |stream|
    ensures LoopChunks(stream, busy, Run(stream, busy, n).chunks, n)
    ensures Run(stream, busy, n).mark == LastCut(stream, Run(stream, busy, n).chunks)
  {
    if n > 0 {
      RunChunks(stream, busy, n - 1);
      StepChunks(stream, busy, Run(stream, busy, n - 1), n);
    }
  }

  /** One pass of the loop body keeps the submission properties and the
      watermark at the last cut. */
  lemma StepChunks(stream: seq<string>, busy: seq<bool>, p: Progress, n: nat)
    requires |busy| == |stream| && 0 < n <= |stream|
    requires LoopChunks(stream, busy, p.chunks, n - 1) && p.mark == LastCut(stream, p.chunks)
    ensures LoopChunks(stream, busy, Step(p, stream[n - 1], !busy[n - 1], n - 1).chunks, n)
    ensures Step(p, stream[n - 1], !busy[n - 1], n - 1).mark
         == LastCut(stream, Step(p, stream[n - 1], !busy[n - 1], n - 1).chunks)
  {
    var cut := CutPoint(stream[n - 1]);
    if !busy[n - 1] && cut > p.mark {
      var c := Chunk(n - 1, stream[n - 1][p.mark..cut]);
      assert Step(p, stream[n - 1], !busy[n - 1], n - 1) == Progress(cut, p.chunks + [c]);
      LoopChunksAppend(stream, busy, p.chunks, c, n);
      assert (p.chunks + [c])[|p.chunks|] == c;
    } else {
      LoopChunksWiden(stream, busy, p.chunks, n);
    }
  }

  /** Each submission made inside the loop is a slice of its own yield's
      response that ends exactly where that response's last delimiter
      begins. */
  lemma {:induction false} RunEndsAtCut(stream: seq<string>, busy: seq<bool>, n: nat)
    requires |busy| == |stream| && n <= |stream|
    ensures forall k :: 0 <= k < |Run(stream, busy, n).chunks| ==>
      Run(stream, busy, n).chunks[k].at < |stream| && EndsAtCut(stream, Run(stream, busy, n).chunks[k])
  {
    if n > 0 {
      RunEndsAtCut(stream, busy, n - 1);
      var p := Run(stream, busy, n - 1);
      var cut := CutPoint(stream[n - 1]);
      if !busy[n - 1] && cut > p.mark {
        var c := Chunk(n - 1, stream[n - 1][p.mark..cut]);
        SliceEndsAtCut(stream, c, p.mark);
        var cs := p.chunks + [c];
        assert Run(stream, busy, n).chunks == cs;
        forall k | 0 <= k < |cs| ensures cs[k].at < |stream| && EndsAtCut(stream, cs[k]) {
          if k < |p.chunks| { assert cs[k] == p.chunks[k]; }
        }
      }
    }
  }

  /** The cut that ended the last submission, 0 when there is none. */
  function LastCut(stream: seq<string>, cs: seq<Chunk>): int
    requires cs != [] ==> cs[|cs| - 1].at < |stream|
  {
    if cs == [] then 0 else CutPoint(stream[cs[|cs| - 1].at])
  }

  /** The text of `c` is the slice of its own yield's response that ends
      where that response's last delimiter begins. */
  ghost predicate EndsAtCut(stream: seq<string>, c: Chunk)
    requires c.at < |stream|
  {
    var cut := CutPoint(stream[c.at]);
    |c.text| <= cut && c.text == stream[c.at][cut - |c.text|..cut]
  }

  /** A slice of a yield's response that runs up to its cut ends at the cut. */
  lemma SliceEndsAtCut(stream: seq<string>, c: Chunk, from: int)
    requires c.at < |stream| && 0 <= from <= CutPoint(stream[c.at])
    requires c.text == stream[c.at][from..CutPoint(stream[c.at])]
    ensures EndsAtCut(stream, c)
  {
  }

  /** The properties of the submissions made in the first `n` yields. */
  ghost predicate LoopChunks(stream: seq<string>, busy: seq<bool>, cs: seq<Chunk>, n: nat)
    requires |busy| == |stream| && n <= |stream|
  {
    ChunksIdle(busy, cs, n) && ChunkLengths(stream, cs) && ChunksOrdered(cs)
  }

  /** Each submission was made before yield `n`, while synthesis was idle,
      and is non-empty. */
  ghost predicate ChunksIdle(busy: seq<bool>, cs: seq<Chunk>, n: nat)
    requires n <= |busy|
  {
    forall k :: 0 <= k < |cs| ==> cs[k].at < n && !busy[cs[k].at] && cs[k].text != []
  }

  /** Each submission is as long as the distance from the previous cut (from
      the start, for the first one) to the cut of its own yield. */
  ghost predicate ChunkLengths(stream: seq<string>, cs: seq<Chunk>)
  {
    && (forall k :: 0 <= k < |cs| ==> cs[k].at < |stream|)
    && (cs != [] ==> |cs[0].text| == CutPoint(stream[cs[0].at]))
    && (forall k :: 0 < k < |cs| ==> |cs[k].text| == CutPoint(stream[cs[k].at]) - CutPoint(stream[cs[k - 1].at]))
  }

  /** At most one submission per yield, in yield order. */
  ghost predicate ChunksOrdered(cs: seq<Chunk>)
  {
    forall k, l :: 0 <= k < l < |cs| ==> cs[k].at < cs[l].at
  }

  lemma LoopChunksWiden(stream: seq<string>, busy: seq<bool>, cs: seq<Chunk>, n: nat)
    requires |busy| == |stream| && 0 < n <= |stream| && LoopChunks(stream, busy, cs, n - 1)
    ensures LoopChunks(stream, busy, cs, n)
  {
  }

  lemma LoopChunksAppend(stream: seq<string>, busy: seq<bool>, cs: seq<Chunk>, c: Chunk, n: nat)
    requires |busy| == |stream| && 0 < n <= |stream| && LoopChunks(stream, busy, cs, n - 1)
    requires c.at == n - 1 && !busy[n - 1] && c.text != []
    requires |c.text| == CutPoint(stream[n - 1]) - LastCut(stream, cs)
    ensures LoopChunks(stream, busy, cs + [c], n)
  {
    IdleAppend(busy, cs, c, n);
    LengthsAppend(stream, cs, c);
    OrderedAppend(cs, c);
  }

  lemma IdleAppend(busy: seq<bool>, cs: seq<Chunk>, c: Chunk, n: nat)
    requires 0 < n <= |busy| && ChunksIdle(busy, cs, n - 1)
    requires c.at == n - 1 && !busy[n - 1] && c.text != []
    ensures ChunksIdle(busy, cs + [c], n)
  {
    var cs' := cs + [c];
    forall k | 0 <= k < |cs'| ensures cs'[k].at < n && !busy[cs'[k].at] && cs'[k].text != [] {
      if k < |cs| { assert cs'[k] == cs[k]; }
    }
  }

  lemma LengthsAppend(stream: seq<string>, cs: seq<Chunk>, c: Chunk)
    requires ChunkLengths(stream, cs) && c.at < |stream|
    requires |c.text| == CutPoint(stream[c.at]) - LastCut(stream, cs)
    ensures ChunkLengths(stream, cs + [c])
  {
    var cs' := cs + [c];
    forall k | 0 <= k < |cs'| ensures cs'[k].at < |stream| {
      if k < |cs| { assert cs'[k] == cs[k]; }
    }
    forall k | 0 < k < |cs'|
      ensures |cs'[k].text| == CutPoint(stream[cs'[k].at]) - CutPoint(stream[cs'[k - 1].at])
    {
      assert cs'[k - 1] == cs[k - 1];
      if k < |cs| { assert cs'[k] == cs[k]; }
    }
  }

  lemma OrderedAppend(cs: seq<Chunk>, c: Chunk)
    requires ChunksOrdered(cs) && forall k :: 0 <= k < |cs| ==> cs[k].at < c.at
    ensures ChunksOrdered(cs + [c])
  {
    var cs' := cs + [c];
    forall k, l | 0 <= k < l < |cs'| ensures cs'[k].at < cs'[l].at {
      assert cs'[k] == cs[k];
    }
  }

  /** Every submission of a whole stream is non-empty, every one made inside
      the loop was made at an idle yield (the remainder at stream end is
      submitted without a busy check), and they are made at most one per
      yield, in yield order. */
  lemma SegmentsChunks(stream: seq<string>, busy: seq<bool>)
    requires |busy| == |stream|
    ensures var cs := Segments(stream, busy);
      && (forall k :: 0 <= k < |cs| ==> cs[k].text != [])
      && (forall k :: 0 <= k < |cs| && cs[k].at < |stream| ==> !busy[cs[k].at])
      && (forall k, l :: 0 <= k < l < |cs| ==> cs[k].at < cs[l].at)
  {
    RunChunks(stream, busy, |stream|);
    var p, last := Run(stream, busy, |stream|), LastOr(stream);
    if p.mark < |last| {
      var c := Chunk(|stream|, last[p.mark..]);
      var cs := p.chunks + [c];
      assert Segments(stream, busy) == cs;
      forall k | 0 <= k < |cs|
        ensures cs[k].text != [] && (cs[k].at < |stream| ==> !busy[cs[k].at])
      {
        if k < |p.chunks| { assert cs[k] == p.chunks[k]; }
      }
      forall k, l | 0 <= k < l < |cs| ensures cs[k].at < cs[l].at {
        assert cs[k] == p.chunks[k];
      }
    }
  }

  /** For a prefix-growing stream every submission after the first begins
      with a delimiter: the delimiter at a cut is left out of the slice it
      closes and opens the next one. */
  lemma SegmentsHeads(stream: seq<string>, busy: seq<bool>)
    requires |busy| == |stream| && IsPrefixChain(stream)
    ensures var cs := Segments(stream, busy);
      forall k :: 0 < k < |cs| ==> cs[k].text != [] && cs[k].text[0] in Delimiters
  {
    RunCovers(stream, busy, |stream|);
    assert stream[..|stream|] == stream;
    var p, last := Run(stream, busy, |stream|), LastOr(stream);
    if p.mark < |last| {
      var c := Chunk(|stream|, last[p.mark..]);
      assert Segments(stream, busy) == p.chunks + [c];
      assert p.chunks != [] ==> c.text[0] == last[p.mark];
    }
  }

  /** The brand-name rewriting commutes with a cut before a delimiter: no
      rewritten phrase contains a delimiter, so none can straddle the cut. */
  lemma RewriteSplit(a: string, b: string)
    requires b == [] || b[0] in Delimiters
    ensures ReplaceResponseInformation(a + b)
         == ReplaceResponseInformation(a) + ReplaceResponseInformation(b)
  {
    var p1, r1 := "科大讯飞", "华南理工大学张智军教授";
    var p2, r2 := "讯飞星火认知大模型", "类人机器人";
    var p3, r3 := "认知智能大模型", "类人机器人";
    assert forall c :: c in Delimiters ==> c !in p1 && c !in p2 && c !in p3;
    ReplaceSplit(a, b, p1, r1);
    var a1, b1 := ReplaceAll(a, p1, r1), ReplaceAll(b, p1, r1);
    if b != [] { ReplaceKeepsHead(b, p1, r1); }
    ReplaceSplit(a1, b1, p2, r2);
    var a2, b2 := ReplaceAll(a1, p2, r2), ReplaceAll(b1, p2, r2);
    if b != [] { ReplaceKeepsHead(b1, p2, r2); }
    ReplaceSplit(a2, b2, p3, r3);
  }

  /** What is spoken equals the rewritten answer, provided every slice after
      the first begins with a delimiter. */
  lemma {:induction false} VoicedIsRewrittenJoin(cs: seq<Chunk>)
    requires forall k :: 0 < k < |cs| ==> cs[k].text != [] && cs[k].text[0] in Delimiters
    ensures Concat(Voiced(cs)) == ReplaceResponseInformation(Joined(cs))
  {
    if cs != [] {
      var init, last := cs[..|cs| - 1], cs[|cs| - 1];
      VoicedIsRewrittenJoin(init);
      assert Voiced(cs)[..|Voiced(cs)| - 1] == Voiced(init) by { VoicedLength(init); }
      if |cs| > 1 {
        RewriteSplit(Joined(init), last.text);
      } else {
        assert Joined(init) + last.text == last.text;
        assert ReplaceResponseInformation(Joined(init)) == "";
      }
    }
  }

  lemma {:induction false} VoicedLength(cs: seq<Chunk>)
    ensures |Voiced(cs)| == |cs|
  {
    if cs != [] { VoicedLength(cs[..|cs| - 1]); }
  }

  /** What a whole stream's submissions amount to: each is non-empty, every
      one made inside the loop was made at an idle yield (the remainder at
      stream end is submitted without a busy check), and for a growing stream
      the slices join to the final response and what is spoken joins to its
      rewrite. */
  lemma SegmentsSpoken(stream: seq<string>, busy: seq<bool>)
    requires |busy| == |stream|
    ensures forall k :: 0 <= k < |Segments(stream, busy)| ==> Segments(stream, busy)[k].text != []
    ensures forall k :: 0 <= k < |Segments(stream, busy)| && Segments(stream, busy)[k].at < |stream| ==>
      !busy[Segments(stream, busy)[k].at]
    ensures IsPrefixChain(stream) ==> Joined(Segments(stream, busy)) == LastOr(stream)
    ensures IsPrefixChain(stream) ==> Concat(Voiced(Segments(stream, busy))) == ReplaceResponseInformation(LastOr(stream))
  {
    SegmentsChunks(stream, busy);
    if IsPrefixChain(stream) {
      SegmentsReassemble(stream, busy);
      SegmentsHeads(stream, busy);
      VoicedIsRewrittenJoin(Segments(stream, busy));
    }
  }

  /** The segmenter's `for` loop over the stream: the watermark, the
      submissions and what was spoken after the last yield, and the last
      response seen. */
  method SegmentLoop(stream: seq<string>, busy: seq<bool>)
    returns (mark: nat, chunks: seq<Chunk>, spoken: seq<string>, prev: string)
    requires |busy| == |stream|
    ensures Run(stream, busy, |stream|) == Progress(mark, chunks)
    ensures spoken == Voiced(chunks) && prev == LastOr(stream)
  {
    prev := "";
    mark := 0;
    chunks, spoken := [], [];
    var i := 0;
    while i < |stream|
      invariant i <= |stream|
      invariant Run(stream, busy, i) == Progress(mark, chunks)
      invariant spoken == Voiced(chunks)
      invariant prev == LastOr(stream[..i])
    {
      var response := stream[i];
      if !busy[i] {
        var cut := CutPoint(response);
        if cut > mark {
          var text := response[mark..cut];
          assert (chunks + [Chunk(i, text)])[..|chunks|] == chunks;
          chunks := chunks + [Chunk(i, text)];
          spoken := spoken + [ReplaceResponseInformation(text)];
          mark := cut;
        }
      }
      prev := response;
      i := i + 1;
    }
    assert stream[..i] == stream;
  }

  /** The segmenter, as the node runs it over one stream: returns the
      submissions, the texts handed to speech synthesis, and the raw final
      response that becomes the turn's answer. */
  method StreamChat(stream: seq<string>, busy: seq<bool>)
    returns (chunks: seq<Chunk>, spoken: seq<string>, answer: string)
    requires |busy| == |stream|
    ensures chunks == Segments(stream, busy) && spoken == Voiced(chunks)
    ensures answer == LastOr(stream)
    ensures forall k :: 0 <= k < |chunks| ==> chunks[k].text != []
    ensures forall k :: 0 <= k < |chunks| && chunks[k].at < |stream| ==> !busy[chunks[k].at]
    ensures IsPrefixChain(stream) ==> Joined(chunks) == answer
    ensures IsPrefixChain(stream) ==> Concat(spoken) == ReplaceResponseInformation(answer)
  {
    var mark;
    mark, chunks, spoken, answer := SegmentLoop(stream, busy);
    if mark < |answer| {
      var text := answer[mark..];
      assert (chunks + [Chunk(|stream|, text)])[..|chunks|] == chunks;
      chunks := chunks + [Chunk(|stream|, text)];
      spoken := spoken + [ReplaceResponseInformation(text)];
    }
    SegmentsSpoken(stream, busy);
  }


  /** A single yield with synthesis idle: the cut falls on the final full
      stop, which is left out of the first slice and spoken on its own at
      stream end. */
  lemma SingleYieldExample()
    ensures Segments(["你好，今天天气不错。"], [false])
         == [Chunk(0, "你好，今天天气不错"), Chunk(1, "。")]
  {
    var s := "你好，今天天气不错。";
    assert s[9] in Delimiters;
    assert CutPoint(s) == 9;
    var stream, busy := [s], [false];
    var p := Run(stream, busy, 1);
    assert p == Step(Progress(0, []), s, true, 0) == Progress(9, [Chunk(0, s[0..9])]);
    assert s[0..9] == "你好，今天天气不错" && s[9..] == "。";
  }

  /** Three growing yields with synthesis idle throughout: each cut moves the
      watermark to the newest delimiter, which then opens the next slice. */
  lemma GrowingStreamExample()
    ensures Segments(["你好", "你好，今天", "你好，今天天气不错。"], [false, false, false])
         == [Chunk(1, "你好"), Chunk(2, "，今天天气不错"), Chunk(3, "。")]
  {
    var s0, s1, s2 := "你好", "你好，今天", "你好，今天天气不错。";
    var stream, busy := [s0, s1, s2], [false, false, false];
    assert CutPoint(s0) == -1;
    assert s1[2] in Delimiters;
    assert CutPoint(s1) == 2;
    assert s2[9] in Delimiters;
    assert CutPoint(s2) == 9;
    var p1 := Run(stream, busy, 1);
    assert p1 == Step(Progress(0, []), s0, true, 0) == Progress(0, []);
    var p2 := Run(stream, busy, 2);
    assert p2 == Step(p1, s1, true, 1) == Progress(2, [Chunk(1, s1[0..2])]);
    var p3 := Run(stream, busy, 3);
    assert p3 == Step(p2, s2, true, 2) == Progress(9, [Chunk(1, s1[0..2]), Chunk(2, s2[2..9])]);
    assert s1[0..2] == "你好" && s2[2..9] == "，今天天气不错" && s2[9..] == "。";
  }

  /** The same stream with synthesis busy at the second yield: no cut is made
      there, and the next idle yield catches up in one slice. */
  lemma BusyYieldExample()
    ensures Segments(["你好", "你好，今天", "你好，今天天气不错。"], [false, true, false])
         == [Chunk(2, "你好，今天天气不错"), Chunk(3, "。")]
  {
    var s0, s1, s2 := "你好", "你好，今天", "你好，今天天气不错。";
    var stream, busy := [s0, s1, s2], [false, true, false];
    assert CutPoint(s0) == -1;
    assert s2[9] in Delimiters;
    assert CutPoint(s2) == 9;
    var p1 := Run(stream, busy, 1);
    assert p1 == Step(Progress(0, []), s0, true, 0) == Progress(0, []);
    var p2 := Run(stream, busy, 2);
    assert p2 == Step(p1, s1, false, 1) == Progress(0, []);
    var p3 := Run(stream, busy, 3);
    assert p3 == Step(p2, s2, true, 2) == Progress(9, [Chunk(2, s2[0..9])]);
    assert s2[0..9] == "你好，今天天气不错" && s2[9..] == "。";
  }

  /** A loop whose every yield finds synthesis busy makes no cut. */
  lemma {:induction false} AllBusyRun(stream: seq<string>, busy: seq<bool>, n: nat)
    requires |busy| == |stream| && n <= |stream|
    requires forall i :: 0 <= i < |busy| ==> busy[i]
    ensures Run(stream, busy, n) == Progress(0, [])
  {
    if n > 0 { AllBusyRun(stream, busy, n - 1); }
  }

  /** The remainder at stream end is submitted without a busy check: even
      when synthesis is busy at every yield, the whole final response is
      submitted, as one slice, after the last yield. */
  lemma AllBusyRemainder(stream: seq<string>, busy: seq<bool>)
    requires |busy| == |stream| && LastOr(stream) != []
    requires forall i :: 0 <= i < |busy| ==> busy[i]
    ensures Segments(stream, busy) == [Chunk(|stream|, LastOr(stream))]
  {
    AllBusyRun(stream, busy, |stream|);
  }
}
