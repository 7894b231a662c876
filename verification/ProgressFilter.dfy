/** `BorgProgressStreamFilter`: complete progress frames are removed from a
    stream whose records end in LF, CR or CRLF.

    Unlike the other filters this one is not chunk-invariant.  It conserves
    bytes under every chunking, and `CutVisibleExactly` says which cuts can be
    seen in its output. */
module ProgressFilter {
  import opened ByteLines
  import opened Options

  const MAX_CARRY := 16 * 1024

  const O_MARK: Bytes := [SPACE, 79, SPACE]
  const C_MARK: Bytes := [SPACE, 67, SPACE]
  const D_MARK: Bytes := [SPACE, 68, SPACE]
  const N_MARK: Bytes := [SPACE, 78]

  datatype Progress = Progress(original: nat, compressed: nat, deduplicated: nat, files: nat, path: string)

  /** The two regular expressions: a whole frame, and a strict "number unit" prefix of one. */
  datatype Patterns = Patterns(parse: Bytes -> Option<Progress>, prefix: Bytes -> bool)

  predicate Contains(s: Bytes, sub: Bytes) {
    Find(s, sub, 0) >= 0
  }

  /** A record that is taken out of the stream. */
  predicate Frame(pat: Patterns, record: Bytes) {
    && Contains(record, O_MARK) && Contains(record, C_MARK) && Contains(record, D_MARK) && Contains(record, N_MARK)
    && pat.parse(record).Some?
  }

  predicate Plausible(pat: Patterns, record: Bytes) {
    && record != [] && |record| <= MAX_CARRY
    && (Contains(record, O_MARK) || pat.prefix(record))
  }

  // ---- splitlines(keepends=True) ----

  function FirstBreak(s: Bytes, from: nat): (i: int)
    requires from <= |s|
    ensures i == -1 || from <= i < |s|
    ensures i >= 0 ==> Break(s[i])
    ensures forall k :: from <= k < (if i < 0 then |s| else i) ==> !Break(s[k])
    decreases |s| - from
  {
    if from == |s| then -1 else if Break(s[from]) then from else FirstBreak(s, from + 1)
  }

  /** Where the first terminated record ends, or -1. */
  function FirstEnd(s: Bytes): (e: int)
    ensures e == -1 || 0 < e <= |s|
  {
    var i := FirstBreak(s, 0);
    if i < 0 then -1 else if s[i] == CR && i + 1 < |s| && s[i + 1] == LF then i + 2 else i + 1
  }

  function Body(s: Bytes): seq<Bytes>
    decreases |s|
  {
    var e := FirstEnd(s);
    if e < 0 then [] else [s[..e]] + Body(s[e..])
  }

  function Tail(s: Bytes): Bytes
    decreases |s|
  {
    var e := FirstEnd(s);
    if e < 0 then s else Tail(s[e..])
  }

  lemma FirstBreakIs(s: Bytes, i: nat)
    requires i < |s| && Break(s[i]) && forall k :: 0 <= k < i ==> !Break(s[k])
    ensures FirstBreak(s, 0) == i
  {
  }

  lemma FirstEndAppend(a: Bytes, b: Bytes)
    requires FirstEnd(a) >= 0 && !CutsCrLf(a, b)
    ensures FirstEnd(a + b) == FirstEnd(a)
  {
    FirstBreakIs(a + b, FirstBreak(a, 0));
  }

  lemma {:induction false} BodyAppend(a: Bytes, b: Bytes)
    requires !CutsCrLf(a, b)
    ensures Body(a + b) == Body(a) + Body(Tail(a) + b)
    ensures Tail(a + b) == Tail(Tail(a) + b)
    decreases |a|
  {
    hide FirstEnd;
    var e := FirstEnd(a);
    if e >= 0 {
      FirstEndAppend(a, b);
      assert (a + b)[..e] == a[..e];
      assert (a + b)[e..] == a[e..] + b;
      BodyAppend(a[e..], b);
    }
  }

  lemma {:induction false} BodyFlatten(s: Bytes)
    ensures Flatten(Body(s)) + Tail(s) == s
    decreases |s|
  {
    hide FirstEnd;
    var e := FirstEnd(s);
    if e >= 0 {
      BodyFlatten(s[e..]);
      FlattenCons(s[..e], Body(s[e..]));
      JoinAt(s, e, Flatten(Body(s[e..])), Tail(s[e..]));
    } else {
      assert [] + s == s;
    }
  }

  lemma JoinAt(s: Bytes, e: nat, x: Bytes, y: Bytes)
    requires e <= |s| && s[e..] == x + y
    ensures s == (s[..e] + x) + y
  {
  }

  lemma FlattenCons(x: Bytes, xs: seq<Bytes>)
    ensures Flatten([x] + xs) == x + Flatten(xs)
  {
    assert ([x] + xs)[1..] == xs;
  }

  lemma {:induction false} TailUnbroken(s: Bytes)
    ensures FirstBreak(Tail(s), 0) < 0
    decreases |s|
  {
    var e := FirstEnd(s);
    if e >= 0 {
      TailUnbroken(s[e..]);
    }
  }

  // ---- one call ----

  function Keep(pat: Patterns, piece: Bytes): Bytes {
    if Frame(pat, RStrip(piece)) then [] else piece
  }

  function KeepAll(pat: Patterns, pieces: seq<Bytes>): Bytes {
    FlatMap(piece => Keep(pat, piece), pieces)
  }

  function FeedOutput(pat: Patterns, p: Bytes): Bytes {
    KeepAll(pat, Body(p)) + if Plausible(pat, Tail(p)) then [] else Tail(p)
  }

  function FeedCarry(pat: Patterns, p: Bytes): (carry: Bytes)
    ensures |carry| <= MAX_CARRY
  {
    if Plausible(pat, Tail(p)) then Tail(p) else []
  }

  function FinalOutput(pat: Patterns, carry: Bytes): Bytes {
    if Frame(pat, carry) then [] else carry
  }

  /** The frame of the newest removed record. */
  function Newest(pat: Patterns, pieces: seq<Bytes>): Option<Progress> {
    if pieces == [] then None
    else
      var last := RStrip(pieces[|pieces| - 1]);
      if Frame(pat, last) then pat.parse(last) else Newest(pat, pieces[..|pieces| - 1])
  }

  // ---- conservation ----

  /** A stretch of the input and whether it was removed. */
  datatype Mark = Mark(bytes: Bytes, removed: bool)

  function MarkBody(pat: Patterns, pieces: seq<Bytes>): seq<Mark> {
    if pieces == [] then []
    else [Mark(pieces[0], Frame(pat, RStrip(pieces[0])))] + MarkBody(pat, pieces[1..])
  }

  function FeedMarks(pat: Patterns, p: Bytes): seq<Mark> {
    MarkBody(pat, Body(p)) + if Plausible(pat, Tail(p)) then [] else [Mark(Tail(p), false)]
  }

  function FinalMarks(pat: Patterns, carry: Bytes): seq<Mark> {
    [Mark(carry, Frame(pat, carry))]
  }

  /** Everything a run over `chunks` did to its input, in order. */
  function Trace(pat: Patterns, carry: Bytes, chunks: seq<Bytes>): seq<Mark>
    decreases |chunks|
  {
    if chunks == [] then FinalMarks(pat, carry)
    else FeedMarks(pat, carry + chunks[0]) + Trace(pat, FeedCarry(pat, carry + chunks[0]), chunks[1..])
  }

  function Output(pat: Patterns, carry: Bytes, chunks: seq<Bytes>): Bytes
    decreases |chunks|
  {
    if chunks == [] then FinalOutput(pat, carry)
    else FeedOutput(pat, carry + chunks[0]) + Output(pat, FeedCarry(pat, carry + chunks[0]), chunks[1..])
  }

  function AllBytes(marks: seq<Mark>): Bytes {
    FlatMap((m: Mark) => m.bytes, marks)
  }

  function KeptBytes(marks: seq<Mark>): Bytes {
    FlatMap((m: Mark) => if m.removed then [] else m.bytes, marks)
  }

  /** Only complete frames are ever removed. */
  ghost predicate OnlyFramesRemoved(pat: Patterns, marks: seq<Mark>) {
    forall i :: 0 <= i < |marks| && marks[i].removed ==>
      Frame(pat, marks[i].bytes) || Frame(pat, RStrip(marks[i].bytes))
  }

  lemma {:induction false} MarkBodyMeaning(pat: Patterns, pieces: seq<Bytes>)
    ensures AllBytes(MarkBody(pat, pieces)) == Flatten(pieces)
    ensures KeptBytes(MarkBody(pat, pieces)) == KeepAll(pat, pieces)
    ensures OnlyFramesRemoved(pat, MarkBody(pat, pieces))
  {
    hide Frame;
    if pieces != [] {
      MarkBodyMeaning(pat, pieces[1..]);
      var ms := MarkBody(pat, pieces);
      assert ms[1..] == MarkBody(pat, pieces[1..]);
    }
  }

  lemma {:induction false} FeedMarksMeaning(pat: Patterns, p: Bytes)
    ensures AllBytes(FeedMarks(pat, p)) + FeedCarry(pat, p) == p
    ensures KeptBytes(FeedMarks(pat, p)) == FeedOutput(pat, p)
    ensures OnlyFramesRemoved(pat, FeedMarks(pat, p))
  {
    hide Frame, Plausible, Body, Tail, MarkBody, KeepAll;
    var t := if Plausible(pat, Tail(p)) then [] else [Mark(Tail(p), false)];
    MarkBodyMeaning(pat, Body(p));
    BodyFlatten(p);
    FlatMapAppend((m: Mark) => m.bytes, MarkBody(pat, Body(p)), t);
    FlatMapAppend((m: Mark) => if m.removed then [] else m.bytes, MarkBody(pat, Body(p)), t);
    OneMark(Mark(Tail(p), false));
  }

  lemma OneMark(m: Mark)
    ensures AllBytes([m]) == m.bytes && AllBytes([]) == []
    ensures KeptBytes([m]) == (if m.removed then [] else m.bytes) && KeptBytes([]) == []
  {
    FlatMapOne((m: Mark) => m.bytes, m);
    FlatMapOne((m: Mark) => if m.removed then [] else m.bytes, m);
  }

  /** Over every chunking the input is the removed records and the output,
      interleaved in order, and every removed record is a complete frame. */
  lemma {:induction false} Conservation(pat: Patterns, carry: Bytes, chunks: seq<Bytes>)
    ensures AllBytes(Trace(pat, carry, chunks)) == carry + Flatten(chunks)
    ensures KeptBytes(Trace(pat, carry, chunks)) == Output(pat, carry, chunks)
    ensures OnlyFramesRemoved(pat, Trace(pat, carry, chunks))
    decreases |chunks|
  {
    hide Frame, FeedMarks, FeedOutput, FeedCarry;
    if chunks == [] {
      OneMark(Mark(carry, Frame(pat, carry)));
      assert carry + [] == carry;
    } else {
      var p := carry + chunks[0];
      var rest := Trace(pat, FeedCarry(pat, p), chunks[1..]);
      FeedMarksMeaning(pat, p);
      Conservation(pat, FeedCarry(pat, p), chunks[1..]);
      FlatMapAppend((m: Mark) => m.bytes, FeedMarks(pat, p), rest);
      FlatMapAppend((m: Mark) => if m.removed then [] else m.bytes, FeedMarks(pat, p), rest);
      Assoc(AllBytes(FeedMarks(pat, p)), FeedCarry(pat, p), Flatten(chunks[1..]));
      Assoc(carry, chunks[0], Flatten(chunks[1..]));
    }
  }

  // ---- which cuts are visible ----

  /** What finally happens to the unterminated end of a payload. */
  function KeepTail(pat: Patterns, t: Bytes): Bytes {
    if Plausible(pat, t) && Frame(pat, t) then [] else t
  }

  function Total(pat: Patterns, p: Bytes): Bytes {
    KeepAll(pat, Body(p)) + KeepTail(pat, Tail(p))
  }

  lemma {:induction false} OneFeed(pat: Patterns, carry: Bytes, a: Bytes)
    ensures Output(pat, carry, [a]) == Total(pat, carry + a)
  {
    hide Frame, Plausible, KeepAll, Body, Tail;
    var p := carry + a;
    assert Output(pat, carry, [a]) == FeedOutput(pat, p) + Output(pat, FeedCarry(pat, p), [a][1..]);
    assert Output(pat, FeedCarry(pat, p), [a][1..]) == FinalOutput(pat, FeedCarry(pat, p));
    EmptyIsNoFrame(pat);
    var k := KeepAll(pat, Body(p));
    assert k + [] == k && (k + Tail(p)) + [] == k + Tail(p);
  }

  lemma EmptyIsNoFrame(pat: Patterns)
    ensures !Frame(pat, [])
  {
  }

  lemma {:induction false} TwoFeeds(pat: Patterns, carry: Bytes, a: Bytes, b: Bytes)
    ensures var p := carry + a;
      Output(pat, carry, [a, b]) == FeedOutput(pat, p) + Total(pat, FeedCarry(pat, p) + b)
  {
    hide FeedOutput, FeedCarry, Total;
    assert [a, b][1..] == [b];
    OneFeed(pat, FeedCarry(pat, carry + a), b);
  }

  /** Whether the record starting a payload is removed in the end. */
  predicate FirstGone(pat: Patterns, s: Bytes) {
    var e := FirstEnd(s);
    if e >= 0 then Frame(pat, RStrip(s[..e])) else Plausible(pat, s) && Frame(pat, s)
  }

  /** Cutting after `p` (the carry and the chunk fed) and before `b` changes the output. */
  predicate Visible(pat: Patterns, p: Bytes, b: Bytes) {
    if b == [] then false
    else if Tail(p) != [] then !Plausible(pat, Tail(p)) && (FirstGone(pat, Tail(p) + b) || FirstGone(pat, b))
    else CutsCrLf(p, b) && Frame(pat, RStrip(Tail(p[..|p| - 1]) + [CR]))
  }

  /** A cut changes what the filter lets through exactly when the unterminated
      record before it is not recognized as a possible frame although it
      completes one or the bytes after the cut form one by themselves, or when
      the cut falls between the CR and the LF of a frame. */
  lemma {:induction false} CutVisibleExactly(pat: Patterns, carry: Bytes, a: Bytes, b: Bytes)
    ensures Output(pat, carry, [a, b]) != Output(pat, carry, [a + b]) <==> Visible(pat, carry + a, b)
  {
    hide *;
    OneFeed(pat, carry, a + b);
    TwoFeeds(pat, carry, a, b);
    Assoc(carry, a, b);
    CutTotal(pat, carry + a, b);
  }

  /** Some cut of the chunking is visible where it is made. */
  predicate SomeVisible(pat: Patterns, carry: Bytes, chunks: seq<Bytes>)
    decreases |chunks|
  {
    && |chunks| >= 2
    && (|| Visible(pat, carry + chunks[0], Flatten(chunks[1..]))
        || SomeVisible(pat, FeedCarry(pat, carry + chunks[0]), chunks[1..]))
  }

  /** Where no cut is visible the filter gives what it gives for the stream in one piece. */
  lemma {:induction false} InvisibleCuts(pat: Patterns, carry: Bytes, chunks: seq<Bytes>)
    requires chunks != [] && !SomeVisible(pat, carry, chunks)
    ensures Output(pat, carry, chunks) == Output(pat, carry, [Flatten(chunks)])
    decreases |chunks|
  {
    hide Visible, FeedOutput, FeedCarry;
    var a, rest := chunks[0], chunks[1..];
    if rest == [] {
      assert chunks == [a];
      assert a + [] == a;
    } else {
      var b, next := Flatten(rest), FeedCarry(pat, carry + a);
      InvisibleCuts(pat, next, rest);
      CutVisibleExactly(pat, carry, a, b);
      OutputSplit(pat, carry, [a, b]);
      assert [a, b][1..] == [b];
    }
  }

  lemma OutputSplit(pat: Patterns, carry: Bytes, chunks: seq<Bytes>)
    requires chunks != []
    ensures Output(pat, carry, chunks)
      == FeedOutput(pat, carry + chunks[0]) + Output(pat, FeedCarry(pat, carry + chunks[0]), chunks[1..])
  {
  }

  lemma {:induction false} CutTotal(pat: Patterns, p: Bytes, b: Bytes)
    ensures FeedOutput(pat, p) + Total(pat, FeedCarry(pat, p) + b) != Total(pat, p + b) <==> Visible(pat, p, b)
  {
    hide Body, Frame, Plausible, FirstGone, Tail;
    if CutsCrLf(p, b) {
      CutCrLfTotal(pat, p, b);
    } else {
      CutPlain(pat, p, b);
      if Tail(p) == [] {
        assert [] + b == b;
        assert !Plausible(pat, []) by { EmptyImplausible(pat); }
      } else if !Plausible(pat, Tail(p)) {
        TailUnbroken(p);
        CutTail(pat, KeepAll(pat, Body(p)), Tail(p), b);
        assert [] + b == b;
      }
    }
  }

  lemma EmptyImplausible(pat: Patterns)
    ensures !Plausible(pat, [])
  {
  }

  lemma {:induction false} CutPlain(pat: Patterns, p: Bytes, b: Bytes)
    requires !CutsCrLf(p, b)
    ensures Total(pat, p + b) == KeepAll(pat, Body(p)) + Total(pat, Tail(p) + b)
  {
    hide Body, Tail, Keep, KeepTail;
    BodyAppend(p, b);
    FlatMapAppend(piece => Keep(pat, piece), Body(p), Body(Tail(p) + b));
    Assoc(KeepAll(pat, Body(p)), KeepAll(pat, Body(Tail(p) + b)), KeepTail(pat, Tail(Tail(p) + b)));
  }

  function First(s: Bytes): Bytes {
    var e := FirstEnd(s);
    if e >= 0 then s[..e] else s
  }

  function AfterFirst(pat: Patterns, s: Bytes): Bytes {
    var e := FirstEnd(s);
    if e >= 0 then Total(pat, s[e..]) else []
  }

  lemma {:induction false} TotalFirst(pat: Patterns, s: Bytes)
    ensures Total(pat, s) == (if FirstGone(pat, s) then [] else First(s)) + AfterFirst(pat, s)
  {
    hide Frame, Plausible, FirstEnd, RStrip;
    var e := FirstEnd(s);
    if e >= 0 {
      assert Body(s) == [s[..e]] + Body(s[e..]) && Body(s)[1..] == Body(s[e..]);
      Assoc(Keep(pat, s[..e]), KeepAll(pat, Body(s[e..])), KeepTail(pat, Tail(s[e..])));
    } else {
      assert [] + KeepTail(pat, s) == KeepTail(pat, s) == KeepTail(pat, s) + [];
    }
  }

  lemma {:induction false} FirstAfter(t: Bytes, b: Bytes)
    requires FirstBreak(t, 0) < 0 && b != []
    ensures First(t + b) == t + First(b) && First(b) != []
    ensures FirstEnd(b) >= 0 ==> FirstEnd(t + b) == |t| + FirstEnd(b) && (t + b)[FirstEnd(t + b)..] == b[FirstEnd(b)..]
    ensures FirstEnd(b) < 0 ==> FirstEnd(t + b) < 0
  {
    FirstEndAfter(t, b);
    hide FirstEnd;
    var e := FirstEnd(b);
    if e >= 0 {
      assert (t + b)[..|t| + e] == t + b[..e] && (t + b)[|t| + e..] == b[e..];
    }
  }

  lemma {:induction false} FirstEndAfter(t: Bytes, b: Bytes)
    requires FirstBreak(t, 0) < 0
    ensures FirstEnd(t + b) == if FirstEnd(b) >= 0 then |t| + FirstEnd(b) else -1
  {
    hide FirstBreak;
    FirstBreakAfter(t, b);
    var i := FirstBreak(b, 0);
    assert i >= 0 ==> (t + b)[|t| + i] == b[i];
    assert i >= 0 && i + 1 < |b| ==> (t + b)[|t| + i + 1] == b[i + 1];
  }

  lemma {:induction false} FirstBreakAfter(t: Bytes, b: Bytes)
    requires FirstBreak(t, 0) < 0
    ensures FirstBreak(b, 0) < 0 ==> FirstBreak(t + b, 0) < 0
    ensures FirstBreak(b, 0) >= 0 ==> FirstBreak(t + b, 0) == |t| + FirstBreak(b, 0)
  {
    var i := FirstBreak(b, 0);
    if i >= 0 {
      FirstBreakIs(t + b, |t| + i);
    } else {
      forall k | 0 <= k < |t + b| ensures !Break((t + b)[k]) {
        assert k >= |t| ==> (t + b)[k] == b[k - |t|];
      }
    }
  }

  lemma {:induction false} CutTail(pat: Patterns, done: Bytes, t: Bytes, b: Bytes)
    requires t != [] && FirstBreak(t, 0) < 0 && !Plausible(pat, t)
    ensures (done + t) + Total(pat, b) != done + Total(pat, t + b)
      <==> b != [] && (FirstGone(pat, t + b) || FirstGone(pat, b))
  {
    hide Frame, Plausible, FirstEnd, Body, Tail, FirstGone;
    if b == [] {
      assert t + b == t;
      Untouched(pat, t);
      EmptyTotal(pat);
      assert (done + t) + [] == done + t;
    } else {
      TotalFirst(pat, b);
      TotalFirst(pat, t + b);
      FirstAfter(t, b);
      CompareCut(done, t, First(b), FirstGone(pat, b), FirstGone(pat, t + b), AfterFirst(pat, b));
    }
  }

  lemma CompareCut(done: Bytes, t: Bytes, b0: Bytes, gone: bool, joinedGone: bool, rest: Bytes)
    requires t != [] && b0 != []
    ensures (done + t) + ((if gone then [] else b0) + rest) != done + ((if joinedGone then [] else t + b0) + rest)
      <==> gone || joinedGone
  {
    var left := (done + t) + ((if gone then [] else b0) + rest);
    var right := done + ((if joinedGone then [] else t + b0) + rest);
    if gone || joinedGone {
      assert |left| != |right|;
    } else {
      assert left == right;
    }
  }

  lemma Untouched(pat: Patterns, t: Bytes)
    requires FirstBreak(t, 0) < 0 && !Plausible(pat, t)
    ensures Total(pat, t) == t
  {
    hide Frame, Plausible;
    assert Body(t) == [] && Tail(t) == t;
    assert [] + t == t;
  }

  lemma EmptyTotal(pat: Patterns)
    ensures Total(pat, []) == []
  {
  }

  lemma {:induction false} CutCrLfTotal(pat: Patterns, p: Bytes, b: Bytes)
    requires CutsCrLf(p, b)
    ensures FeedOutput(pat, p) + Total(pat, FeedCarry(pat, p) + b) != Total(pat, p + b) <==> Visible(pat, p, b)
  {
    hide Body, Frame, Plausible, FirstGone, Tail, FirstEnd, RStrip, KeepAll, Total;
    var x, y := p[..|p| - 1], b[1..];
    var t := Tail(x);
    TailUnbroken(x);
    CrEnd(pat, x);
    assert p == x + [CR] && b == [LF] + y;
    assert p + b == x + ([CR, LF] + y);
    CutPlain(pat, x, [CR, LF] + y);
    assert t + ([CR, LF] + y) == t + [CR, LF] + y;
    CrLfFirst(pat, t, y);
    LfFirst(pat, y);
    EmptyImplausible(pat);
    assert [] + b == b;
    CompareCrLf(KeepAll(pat, Body(x)), t, Frame(pat, RStrip(t + [CR])), Total(pat, y));
  }

  lemma CompareCrLf(done: Bytes, t: Bytes, frame: bool, rest: Bytes)
    ensures frame
      <==> (done + (if frame then [] else t + [CR])) + ([LF] + rest)
           != done + ((if frame then [] else t + [CR, LF]) + rest)
  {
    var left := (done + (if frame then [] else t + [CR])) + ([LF] + rest);
    var right := done + ((if frame then [] else t + [CR, LF]) + rest);
    if frame {
      assert |left| != |right|;
    } else {
      assert left == right;
    }
  }

  /** A payload ending in CR has no unterminated record. */
  lemma {:induction false} CrEnd(pat: Patterns, x: Bytes)
    ensures Tail(x + [CR]) == []
    ensures FeedOutput(pat, x + [CR])
      == KeepAll(pat, Body(x)) + if Frame(pat, RStrip(Tail(x) + [CR])) then [] else Tail(x) + [CR]
  {
    hide Frame, RStrip, Plausible, Body, Tail;
    var u := Tail(x) + [CR];
    TailUnbroken(x);
    BodyAppend(x, [CR]);
    OneCr(Tail(x));
    FlatMapAppend(piece => Keep(pat, piece), Body(x), [u]);
    FlatMapOne(piece => Keep(pat, piece), u);
    EmptyImplausible(pat);
    var k := KeepAll(pat, Body(x)) + Keep(pat, u);
    assert k + [] == k;
  }

  lemma OneCr(t: Bytes)
    requires FirstBreak(t, 0) < 0
    ensures Body(t + [CR]) == [t + [CR]] && Tail(t + [CR]) == []
  {
    var u := t + [CR];
    FirstBreakIs(u, |t|);
    assert FirstEnd(u) == |u|;
    assert u[..|u|] == u && u[|u|..] == [];
    assert Body([]) == [] && Tail([]) == [];
  }

  lemma {:induction false} CrLfFirst(pat: Patterns, t: Bytes, y: Bytes)
    requires FirstBreak(t, 0) < 0
    ensures Total(pat, t + [CR, LF] + y)
      == (if Frame(pat, RStrip(t + [CR])) then [] else t + [CR, LF]) + Total(pat, y)
  {
    hide Frame, Body, Tail, Total, Plausible;
    var s := t + [CR, LF] + y;
    FirstBreakIs(s, |t|);
    assert FirstEnd(s) == |t| + 2;
    assert s[..|t| + 2] == t + [CR, LF] && s[|t| + 2..] == y;
    TotalFirst(pat, s);
    assert (t + [CR, LF])[..|t| + 1] == t + [CR];
    assert RStrip(t + [CR, LF]) == RStrip(t + [CR]);
  }

  lemma {:induction false} LfFirst(pat: Patterns, y: Bytes)
    ensures Total(pat, [LF] + y) == [LF] + Total(pat, y)
  {
    hide Frame, Body, Tail, Total, Plausible;
    var s := [LF] + y;
    FirstBreakIs(s, 0);
    assert s[..1] == [LF] && s[1..] == y;
    TotalFirst(pat, s);
    assert RStrip([LF]) == [];
    EmptyIsNoFrame(pat);
  }

  lemma UnbrokenParts(t: Bytes, rest: Bytes)
    requires FirstBreak(t + rest, 0) < 0
    ensures FirstBreak(t, 0) < 0 && FirstBreak(rest, 0) < 0
  {
    forall k | 0 <= k < |t| ensures !Break(t[k]) {
      assert (t + rest)[k] == t[k];
    }
    forall k | 0 <= k < |rest| ensures !Break(rest[k]) {
      assert (t + rest)[|t| + k] == rest[k];
    }
  }

  /** A frame cut where its beginning is not plausible: the beginning is passed through, and
      the rest is removed if and only if it is a frame by itself. */
  lemma {:induction false} FrameCut(pat: Patterns, t: Bytes, rest: Bytes)
    requires t != [] && FirstBreak(t + rest, 0) < 0 && !Plausible(pat, t) && Frame(pat, t + rest)
    ensures Output(pat, [], [t + rest + [LF]]) == []
    ensures Output(pat, [], [t, rest + [LF]]) == if Frame(pat, rest) then t else t + rest + [LF]
  {
    hide Frame, Plausible, Body, Tail, FirstBreak, FirstEnd, Total, FeedOutput, FeedCarry, Output;
    UnbrokenParts(t, rest);
    OneFeed(pat, [], t + rest + [LF]);
    TwoFeeds(pat, [], t, rest + [LF]);
    assert [] + (t + rest + [LF]) == t + rest + [LF] && [] + t == t && [] + (rest + [LF]) == rest + [LF];
    LfRecord(pat, t + rest);
    LfRecord(pat, rest);
    ImplausibleFeed(pat, t);
    assert t + (rest + [LF]) == t + rest + [LF] && t + [] == t;
  }

  /** A frame of any length up to the carry limit loses nothing when the cut leaves a
      plausible beginning, and only then. */
  lemma {:induction false} FrameCutExactly(pat: Patterns, t: Bytes, rest: Bytes)
    requires t != [] && FirstBreak(t + rest, 0) < 0 && Frame(pat, t + rest)
    ensures Output(pat, [], [t, rest + [LF]]) == [] <==> Plausible(pat, t)
  {
    hide Frame, Plausible, Body, Tail, FirstBreak, FirstEnd, Total, FeedOutput, FeedCarry, Output;
    UnbrokenParts(t, rest);
    if Plausible(pat, t) {
      OneFeed(pat, [], t + rest + [LF]);
      TwoFeeds(pat, [], t, rest + [LF]);
      LfRecord(pat, t + rest);
      PlausibleFeed(pat, t);
      assert [] + t == t && t + (rest + [LF]) == t + rest + [LF];
      assert [] + Total(pat, t + rest + [LF]) == Total(pat, t + rest + [LF]);
    } else {
      FrameCut(pat, t, rest);
    }
  }

  lemma PlausibleFeed(pat: Patterns, t: Bytes)
    requires FirstBreak(t, 0) < 0 && Plausible(pat, t)
    ensures FeedOutput(pat, t) == [] && FeedCarry(pat, t) == t
  {
    hide Plausible;
    assert Body(t) == [] && Tail(t) == t;
    assert KeepAll(pat, []) + [] == [];
  }

  lemma ImplausibleFeed(pat: Patterns, t: Bytes)
    requires FirstBreak(t, 0) < 0 && !Plausible(pat, t)
    ensures FeedOutput(pat, t) == t && FeedCarry(pat, t) == []
  {
    hide Plausible;
    assert Body(t) == [] && Tail(t) == t;
    assert [] + t == t;
  }

  lemma {:induction false} LfRecord(pat: Patterns, r: Bytes)
    requires FirstBreak(r, 0) < 0
    ensures Total(pat, r + [LF]) == if Frame(pat, r) then [] else r + [LF]
  {
    hide Frame, Plausible, Body, Tail, Total;
    var s := r + [LF];
    FirstBreakIs(s, |r|);
    assert FirstEnd(s) == |s| && s[..|s|] == s && s[|s|..] == [];
    TotalFirst(pat, s);
    EmptyTotal(pat);
    assert s[..|s| - 1] == r;
    assert RStrip(s) == RStrip(r) == r;
  }

  // ---- the fast path and the filter object ----

  /** Data without CR and without the O marker holds no frame, so only its tail matters. */
  lemma {:induction false} FastPath(pat: Patterns, data: Bytes)
    requires FindByte(data, CR) < 0 && !Contains(data, O_MARK)
    ensures var lf := RFindByte(data, LF);
      Tail(data) == data[lf + 1..] && KeepAll(pat, Body(data)) == data[..lf + 1]
    ensures Newest(pat, Body(data)) == None
  {
    hide Contains, Frame, FirstEnd, RFindByte;
    NoFrames(pat, data);
    LastLf(data);
    BodyFlatten(data);
    NothingRemoved(pat, Body(data));
    var lf := RFindByte(data, LF);
    assert data[lf + 1..] == Tail(data);
    assert data[..lf + 1] == Flatten(Body(data));
  }

  /** No record of such data is a frame. */
  lemma {:induction false} NoFrames(pat: Patterns, data: Bytes)
    requires !Contains(data, O_MARK)
    ensures forall i :: 0 <= i < |Body(data)| ==> !Frame(pat, RStrip(Body(data)[i]))
    decreases |data|
  {
    hide FirstEnd;
    var e := FirstEnd(data);
    if e >= 0 {
      assert data == data[..e] + data[e..];
      PartLacks(data[..e], data[e..]);
      NoFrames(pat, data[e..]);
      StrippedLacks(data[..e]);
    }
  }

  lemma {:induction false} PartLacks(a: Bytes, b: Bytes)
    ensures Contains(a, O_MARK) || Contains(b, O_MARK) ==> Contains(a + b, O_MARK)
  {
    var i, j := Find(a, O_MARK, 0), Find(b, O_MARK, 0);
    if i >= 0 {
      assert (a + b)[i..i + 3] == a[i..i + 3];
      assert OccursAt(a + b, O_MARK, i);
    }
    if j >= 0 {
      assert (a + b)[|a| + j..|a| + j + 3] == b[j..j + 3];
      assert OccursAt(a + b, O_MARK, |a| + j);
    }
  }

  lemma {:induction false} StrippedLacks(s: Bytes)
    requires !Contains(s, O_MARK)
    ensures !Contains(RStrip(s), O_MARK)
  {
    hide Contains;
    if s != [] && Break(s[|s| - 1]) {
      assert s == s[..|s| - 1] + [s[|s| - 1]];
      PartLacks(s[..|s| - 1], [s[|s| - 1]]);
      StrippedLacks(s[..|s| - 1]);
    }
  }

  lemma {:induction false} NothingRemoved(pat: Patterns, pieces: seq<Bytes>)
    requires forall i :: 0 <= i < |pieces| ==> !Frame(pat, RStrip(pieces[i]))
    ensures KeepAll(pat, pieces) == Flatten(pieces) && Newest(pat, pieces) == None
  {
    hide Frame;
    if pieces != [] {
      NothingRemoved(pat, pieces[1..]);
      NoNewest(pat, pieces);
    }
  }

  lemma {:induction false} NoNewest(pat: Patterns, pieces: seq<Bytes>)
    requires forall i :: 0 <= i < |pieces| ==> !Frame(pat, RStrip(pieces[i]))
    ensures Newest(pat, pieces) == None
  {
    hide Frame;
    if pieces != [] {
      NoNewest(pat, pieces[..|pieces| - 1]);
    }
  }

  /** Without CR the tail is what follows the last LF. */
  lemma {:induction false} LastLf(data: Bytes)
    requires FindByte(data, CR) < 0
    ensures |Tail(data)| == |data| - (RFindByte(data, LF) + 1)
    decreases |data|
  {
    hide RFindByteBefore, FindByteFrom;
    var e := FirstEnd(data);
    if e >= 0 {
      var rest := data[e..];
      assert forall k :: 0 <= k < |rest| ==> rest[k] == data[e + k];
      LastLf(rest);
      LastLfShift(data, e);
    }
  }

  lemma {:induction false} LastLfShift(data: Bytes, e: int)
    requires 0 < e <= |data| && data[e - 1] == LF
    ensures RFindByte(data, LF) == e + RFindByte(data[e..], LF)
  {
    hide RFindByteBefore;
    var q, r := RFindByte(data[e..], LF), RFindByte(data, LF);
    assert q >= 0 ==> data[e + q] == LF;
    assert r >= e ==> data[e..][r - e] == LF;
    assert forall k :: q < k < |data| - e ==> data[e..][k] == data[e + k];
  }

  class BorgProgressStreamFilter {
    const pat: Patterns
    var latest: Option<Progress>
    var carry: Bytes

    constructor (pat: Patterns)
      ensures this.pat == pat && carry == [] && latest == None
    {
      this.pat := pat;
      latest, carry := None, [];
    }

    method FeedData(data: Bytes) returns (output: Bytes, newest: Option<Progress>)
      requires |carry| <= MAX_CARRY
      modifies this
      ensures |carry| <= MAX_CARRY
      ensures data == [] ==> output == [] && carry == old(carry) && newest == None
      ensures data != [] ==>
        var p := old(carry) + data;
        output == FeedOutput(pat, p) && carry == FeedCarry(pat, p) && newest == Newest(pat, Body(p))
      ensures latest == if newest.Some? then newest else old(latest)
    {
      hide Frame, Plausible, Body, Tail, Contains, RFindByte, FindByte, KeepAll, Newest, FeedOutput, FeedCarry,
           ScannedTo, FirstEnd, RStrip;
      newest := None;
      if data == [] {
        return [], None;
      }
      if carry == [] && FindByte(data, CR) < 0 && !Contains(data, O_MARK) {
        FastPathFeed(pat, data);
        EmptyImplausible(pat);
        assert carry + data == data;
        var lf := RFindByte(data, LF);
        var tail := data[lf + 1..];
        if tail != [] && Plausible(pat, tail) {
          PlausibleIsShort(pat, tail);
          carry := tail;
          return data[..lf + 1], None;
        }
        return data, None;
      }
      var payload := carry + data;
      carry := [];
      output := [];
      var start := 0;
      BeginScan(pat, payload);
      while true
        invariant 0 <= start <= |payload| && carry == []
        invariant ScannedTo(pat, payload, start, output, newest)
        invariant latest == if newest.Some? then newest else old(latest)
        decreases |payload| - start
      {
        var rest := payload[start..];
        var end := FirstEnd(rest);
        if end < 0 {
          EndScan(pat, payload, start, output, newest);
          if rest != [] && Plausible(pat, rest) {
            PlausibleIsShort(pat, rest);
            carry := rest;
          } else {
            output := output + rest;
          }
          return;
        }
        var framed := rest[..end];
        var record := RStrip(framed);
        ScanRecord(pat, payload, start, output, newest, end);
        start := start + end;
        if Frame(pat, record) {
          newest := pat.parse(record);
          FrameParses(pat, record);
          latest := newest;
        } else {
          output := output + framed;
        }
      }
    }

    method FinalizeStream() returns (output: Bytes, progress: Option<Progress>)
      modifies this
      ensures carry == [] && output == FinalOutput(pat, old(carry))
      ensures progress == if Frame(pat, old(carry)) then pat.parse(old(carry)) else None
      ensures latest == if progress.Some? then progress else old(latest)
    {
      EmptyIsNoFrame(pat);
      if carry == [] {
        return [], None;
      }
      var trailing := carry;
      carry := [];
      if Frame(pat, trailing) {
        latest := pat.parse(trailing);
        return [], latest;
      }
      return trailing, None;
    }
  }

  /** Feeding the object any chunks and finalizing it loses nothing but complete frames. */
  method FilterStream(pat: Patterns, chunks: seq<Bytes>) returns (output: Bytes, ghost marks: seq<Mark>)
    ensures output == Output(pat, [], chunks) && output == KeptBytes(marks)
    ensures AllBytes(marks) == Flatten(chunks) && OnlyFramesRemoved(pat, marks)
    ensures chunks != [] && !SomeVisible(pat, [], chunks) ==> output == Output(pat, [], [Flatten(chunks)])
  {
    hide Output, FeedOutput, FeedCarry, FinalOutput, Newest, Body, Trace, SomeVisible, AllBytes, KeptBytes, Flatten,
         OnlyFramesRemoved, Held;
    var filter := new BorgProgressStreamFilter(pat);
    output := [];
    var i := 0;
    assert chunks[0..] == chunks && [] + Output(pat, [], chunks) == Output(pat, [], chunks);
    NothingHeld(pat);
    while i < |chunks|
      invariant 0 <= i <= |chunks| && filter.pat == pat && Held(pat, filter.carry)
      invariant output + Output(pat, filter.carry, chunks[i..]) == Output(pat, [], chunks)
    {
      NextChunk(pat, filter.carry, chunks, i);
      HeldIsShort(pat, filter.carry);
      FeedHeld(pat, filter.carry + chunks[i]);
      var piece, newest := filter.FeedData(chunks[i]);
      Assoc(output, piece, Output(pat, filter.carry, chunks[i + 1..]));
      output := output + piece;
      i := i + 1;
    }
    NoChunk(pat, filter.carry);
    assert chunks[i..] == [];
    var last, progress := filter.FinalizeStream();
    output := output + last;
    marks := Trace(pat, [], chunks);
    Conservation(pat, [], chunks);
    assert [] + Flatten(chunks) == Flatten(chunks);
    if chunks != [] && !SomeVisible(pat, [], chunks) {
      InvisibleCuts(pat, [], chunks);
    }
  }

  lemma NoChunk(pat: Patterns, carry: Bytes)
    ensures Output(pat, carry, []) == FinalOutput(pat, carry)
  {
  }

  /** What the filter may hold back between two feeds. */
  predicate Held(pat: Patterns, carry: Bytes) {
    carry == [] || (Plausible(pat, carry) && FirstBreak(carry, 0) < 0)
  }

  lemma NothingHeld(pat: Patterns)
    ensures Held(pat, [])
  {
  }

  lemma HeldIsShort(pat: Patterns, carry: Bytes)
    requires Held(pat, carry)
    ensures |carry| <= MAX_CARRY
  {
  }

  lemma FeedHeld(pat: Patterns, p: Bytes)
    ensures Held(pat, FeedCarry(pat, p))
  {
    hide Plausible;
    TailUnbroken(p);
  }

  /** One feed; an empty chunk is returned at once and changes nothing. */
  lemma {:induction false} NextChunk(pat: Patterns, carry: Bytes, chunks: seq<Bytes>, i: nat)
    requires i < |chunks| && Held(pat, carry)
    ensures var p := carry + chunks[i];
      Output(pat, carry, chunks[i..]) == FeedOutput(pat, p) + Output(pat, FeedCarry(pat, p), chunks[i + 1..])
    ensures chunks[i] == [] ==> FeedOutput(pat, carry + chunks[i]) == [] && FeedCarry(pat, carry + chunks[i]) == carry
  {
    hide FeedOutput, FeedCarry, Plausible;
    assert chunks[i..][1..] == chunks[i + 1..];
    OutputSplit(pat, carry, chunks[i..]);
    if chunks[i] == [] {
      assert carry + [] == carry;
      if carry == [] {
        EmptyFeed(pat);
      } else {
        PlausibleFeed(pat, carry);
      }
    }
  }

  lemma EmptyFeed(pat: Patterns)
    ensures FeedOutput(pat, []) == [] && FeedCarry(pat, []) == []
  {
    EmptyImplausible(pat);
  }

  lemma PlausibleIsShort(pat: Patterns, record: Bytes)
    requires Plausible(pat, record)
    ensures |record| <= MAX_CARRY
  {
  }

  lemma FrameParses(pat: Patterns, record: Bytes)
    requires Frame(pat, record)
    ensures pat.parse(record).Some?
  {
  }

  /** The loop has handled exactly the records of payload[..start]. */
  predicate ScannedTo(pat: Patterns, payload: Bytes, start: nat, output: Bytes, newest: Option<Progress>)
    requires start <= |payload|
  {
    var rest := payload[start..];
    && |Body(rest)| <= |Body(payload)|
    && var done := Body(payload)[..|Body(payload)| - |Body(rest)|];
    && Body(payload) == done + Body(rest) && Tail(payload) == Tail(rest)
    && output == KeepAll(pat, done) && newest == Newest(pat, done)
  }

  lemma BeginScan(pat: Patterns, payload: Bytes)
    ensures ScannedTo(pat, payload, 0, [], None)
  {
    hide Body, Tail, Frame;
    assert payload[0..] == payload && Body(payload)[..0] == [];
  }

  lemma {:induction false} EndScan(pat: Patterns, payload: Bytes, start: nat, output: Bytes, newest: Option<Progress>)
    requires start <= |payload| && ScannedTo(pat, payload, start, output, newest)
    requires FirstEnd(payload[start..]) < 0
    ensures newest == Newest(pat, Body(payload))
    ensures var rest := payload[start..];
      && FeedOutput(pat, payload) == (output + if Plausible(pat, rest) then [] else rest)
      && FeedCarry(pat, payload) == (if Plausible(pat, rest) then rest else [])
      && (Plausible(pat, rest) ==> FeedOutput(pat, payload) == output && rest != [])
  {
    hide Frame, FirstEnd, KeepAll, Newest;
    assert Body(payload[start..]) == [];
    assert Body(payload)[..|Body(payload)|] == Body(payload);
    assert output + [] == output;
  }

  lemma {:induction false} ScanRecord(pat: Patterns, payload: Bytes, start: nat, output: Bytes,
                                      newest: Option<Progress>, e: int)
    requires start <= |payload| && ScannedTo(pat, payload, start, output, newest)
    requires e == FirstEnd(payload[start..]) && e >= 0
    ensures var record := RStrip(payload[start..][..e]);
      ScannedTo(pat, payload, start + e,
                if Frame(pat, record) then output else output + payload[start..][..e],
                if Frame(pat, record) then pat.parse(record) else newest)
  {
    hide Frame, FirstEnd, RStrip, KeepAll, Newest, Body, Tail;
    var rest := payload[start..];
    var done := Body(payload)[..|Body(payload)| - |Body(rest)|];
    NextRecord(pat, done, rest, e);
    assert payload[start + e..] == rest[e..];
    assert (done + [rest[..e]] + Body(rest[e..]))[..|done| + 1] == done + [rest[..e]];
    assert KeepAll(pat, done) + [] == KeepAll(pat, done);
  }

  lemma {:induction false} FastPathFeed(pat: Patterns, data: Bytes)
    requires FindByte(data, CR) < 0 && !Contains(data, O_MARK)
    ensures var lf := RFindByte(data, LF);
      var held := Plausible(pat, data[lf + 1..]);
      && FeedOutput(pat, data) == (if held then data[..lf + 1] else data)
      && FeedCarry(pat, data) == (if held then data[lf + 1..] else [])
    ensures Newest(pat, Body(data)) == None
  {
    hide Contains, Frame, FindByte, RFindByte, KeepAll, Plausible, Body, Tail;
    FastPath(pat, data);
    var lf := RFindByte(data, LF);
    assert data[..lf + 1] + data[lf + 1..] == data && data[..lf + 1] + [] == data[..lf + 1];
  }

  lemma {:induction false} NextRecord(pat: Patterns, done: seq<Bytes>, s: Bytes, e: int)
    requires e == FirstEnd(s) && e >= 0
    ensures done + Body(s) == (done + [s[..e]]) + Body(s[e..]) && Tail(s) == Tail(s[e..])
    ensures KeepAll(pat, done + [s[..e]]) == KeepAll(pat, done) + Keep(pat, s[..e])
    ensures Newest(pat, done + [s[..e]])
      == if Frame(pat, RStrip(s[..e])) then pat.parse(RStrip(s[..e])) else Newest(pat, done)
  {
    hide Frame, FirstEnd, RStrip;
    Assoc(done, [s[..e]], Body(s[e..]));
    FlatMapAppend(piece => Keep(pat, piece), done, [s[..e]]);
    FlatMapOne(piece => Keep(pat, piece), s[..e]);
    assert (done + [s[..e]])[..|done|] == done;
  }
}
