/** Telemetry frames as the client writes them, and what the filter makes of a stream of them. */
module NetworkFrames {
  import opened ByteLines
  import opened Numerals
  import opened NetworkFilter
  import opened Options

  /** The last field of a frame; older clients write none. */
  datatype Route = Unsaid | Selected | Unselected

  /** A frame; numbers may carry leading zeros. */
  datatype Frame =
    Frame(interface: Bytes, ip: Bytes, rxZeros: nat, rx: nat, txZeros: nat, tx: nat, route: Route)

  predicate PlainLabel(f: Bytes) {
    f != [] && TAB !in f && CR !in f && LF !in f
  }

  predicate Writable(f: Frame) {
    && PlainLabel(f.interface) && PlainLabel(f.ip)
    && |Padded(f.rxZeros, f.rx)| <= MAX_DIGITS && |Padded(f.txZeros, f.tx)| <= MAX_DIGITS
  }

  function RouteField(route: Route): Bytes {
    match route
    case Unsaid => []
    case Selected => [TAB, 49]
    case Unselected => [TAB, 48]
  }

  function Written(f: Frame): Bytes {
    PREFIX + (f.interface + [TAB] + (f.ip + [TAB] + (Padded(f.rxZeros, f.rx) + [TAB]
      + (Padded(f.txZeros, f.tx) + RouteField(f.route)))))
  }

  /** The counter a frame stands for; a frame that does not say so is the route's. */
  function CounterOf(decode: Decoder, f: Frame): Counter {
    Counter(decode(f.interface), decode(f.ip), f.rx, f.tx, f.route != Unselected)
  }

  // ---- parsing inverts writing ----

  lemma NextField(a: Bytes, s: Bytes)
    requires TAB !in a
    ensures Fields(a + [TAB] + s) == [a] + Fields(s) && Fields(a) == [a]
  {
    var t := a + [TAB] + s;
    FindByteIs(t, TAB, |a|);
    assert t[..|a|] == a && t[|a| + 1..] == s;
  }

  /** A field ends at the first TAB. */
  lemma FirstField(s: Bytes) returns (rest: Bytes)
    requires |Fields(s)| > 1
    ensures s == Fields(s)[0] + [TAB] + rest && Fields(rest) == Fields(s)[1..] && TAB !in Fields(s)[0]
  {
    var i := FindByte(s, TAB);
    rest := s[i + 1..];
    assert s == s[..i] + [TAB] + rest;
  }

  lemma LastField(s: Bytes)
    requires |Fields(s)| == 1
    ensures Fields(s) == [s] && TAB !in s
  {
    assert FindByte(s, TAB) >= 0 ==> |Fields(s)| == 1 + |Fields(s[FindByte(s, TAB) + 1..])|;
    FieldsExist(s[FindByte(s, TAB) + 1..]);
  }

  lemma FieldsExist(s: Bytes)
    ensures |Fields(s)| >= 1
  {
  }

  lemma DigitsAreFields(s: Bytes)
    requires Digits(s)
    ensures TAB !in s && CR !in s && LF !in s && RS !in s
  {
  }

  /** The fields of a written frame. */
  function FrameFields(f: Frame): seq<Bytes> {
    [f.interface, f.ip, Padded(f.rxZeros, f.rx), Padded(f.txZeros, f.tx)]
    + match f.route
      case Unsaid => []
      case Selected => [[49]]
      case Unselected => [[48]]
  }

  lemma FieldsOfWritten(f: Frame)
    requires Writable(f)
    ensures Prefixes(PREFIX, Written(f)) && Fields(Written(f)[|PREFIX|..]) == FrameFields(f)
  {
    hide Fields, Padded;
    var r, t, last := Padded(f.rxZeros, f.rx), Padded(f.txZeros, f.tx), RouteField(f.route);
    DigitsAreFields(r);
    DigitsAreFields(t);
    NextField(f.interface, f.ip + [TAB] + (r + [TAB] + (t + last)));
    NextField(f.ip, r + [TAB] + (t + last));
    NextField(r, t + last);
    if f.route == Unsaid {
      assert t + last == t;
      NextField(t, []);
    } else {
      assert t + last == t + [TAB] + last[1..];
      NextField(t, last[1..]);
      NextField(last[1..], []);
    }
    assert Written(f)[|PREFIX|..] == f.interface + [TAB] + (f.ip + [TAB] + (r + [TAB] + (t + last)));
  }

  /** A written frame parses to exactly what was written. */
  lemma WrittenParses(decode: Decoder, f: Frame)
    requires Writable(f)
    ensures Parse(decode, Written(f)) == Some(CounterOf(decode, f))
  {
    hide Fields, Written, Padded;
    FieldsOfWritten(f);
    NaturalOfPadded(f.rxZeros, f.rx);
    NaturalOfPadded(f.txZeros, f.tx);
  }

  /** The frame a record with these fields is. */
  lemma FrameWithFields(s: Bytes) returns (f: Frame)
    requires 4 <= |Fields(s)| <= 5 && Label(Fields(s)[0]) && Label(Fields(s)[1])
    requires Digits(Fields(s)[2]) && Digits(Fields(s)[3])
    requires |Fields(s)[2]| <= MAX_DIGITS && |Fields(s)[3]| <= MAX_DIGITS
    requires |Fields(s)| == 5 ==> Fields(s)[4] == [48] || Fields(s)[4] == [49]
    ensures Writable(f) && Written(f) == PREFIX + s
    ensures f.interface == Fields(s)[0] && f.ip == Fields(s)[1]
    ensures f.rx == Natural(Fields(s)[2]) && f.tx == Natural(Fields(s)[3])
    ensures f.route == if |Fields(s)| == 4 then Unsaid else if Fields(s)[4] == [49] then Selected else Unselected
  {
    hide Fields, Padded;
    var fs := Fields(s);
    var s1 := FirstField(s);
    var s2 := FirstField(s1);
    var s3 := FirstField(s2);
    var rxZeros := DigitsArePadded(fs[2]);
    var txZeros := DigitsArePadded(fs[3]);
    if |fs| == 4 {
      LastField(s3);
      assert s3 == fs[3] + [];
      f := Frame(fs[0], fs[1], rxZeros, Natural(fs[2]), txZeros, Natural(fs[3]), Unsaid);
    } else {
      var s4 := FirstField(s3);
      LastField(s4);
      assert s3 == fs[3] + ([TAB] + fs[4]);
      f := Frame(fs[0], fs[1], rxZeros, Natural(fs[2]), txZeros, Natural(fs[3]),
                 if fs[4] == [49] then Selected else Unselected);
    }
  }

  /** Nothing but written frames parses. */
  lemma ParseExactly(decode: Decoder, record: Bytes, c: Counter)
    ensures Parse(decode, record) == Some(c) <==>
      exists f :: Writable(f) && record == Written(f) && c == CounterOf(decode, f)
  {
    hide Fields, Written, Padded, Label, Digits;
    if Parse(decode, record) == Some(c) {
      var s := record[|PREFIX|..];
      assert record == PREFIX + s;
      var f := FrameWithFields(s);
      assert Writable(f) && record == Written(f) && c == CounterOf(decode, f);
    }
    forall f | Writable(f) && record == Written(f) ensures Parse(decode, record) == Some(CounterOf(decode, f)) {
      WrittenParses(decode, f);
    }
  }

  // ---- streams of frames and other output ----

  /** Some output, then a frame or the end of an ordinary line. */
  datatype Piece = Piece(text: Bytes, frame: Option<Frame>)

  predicate Ordinary(p: Piece) {
    LF !in p.text && RS !in p.text && (p.frame.Some? ==> Writable(p.frame.value))
  }

  function LineOf(p: Piece): Bytes {
    p.text + if p.frame.Some? then Written(p.frame.value) else []
  }

  function StreamOf(ps: seq<Piece>): Bytes {
    if ps == [] then [] else LineOf(ps[0]) + [LF] + StreamOf(ps[1..])
  }

  /** The stream without its frames; a frame takes its line feed with it. */
  function TextOf(ps: seq<Piece>): Bytes {
    if ps == [] then [] else ps[0].text + (if ps[0].frame.Some? then [] else [LF]) + TextOf(ps[1..])
  }

  function CountersOf(decode: Decoder, ps: seq<Piece>): seq<Counter> {
    if ps == [] then []
    else (if ps[0].frame.Some? then [CounterOf(decode, ps[0].frame.value)] else []) + CountersOf(decode, ps[1..])
  }

  lemma WrittenIsLine(f: Frame)
    requires Writable(f)
    ensures LF !in Written(f) && RStrip(Written(f)) == Written(f) && OccursAt(Written(f), PREFIX, 0)
  {
    hide Padded;
    DigitsAreFields(Padded(f.rxZeros, f.rx));
    DigitsAreFields(Padded(f.txZeros, f.tx));
    var last := Padded(f.txZeros, f.tx) + RouteField(f.route);
    EndsInDigit(f);
    assert LF !in last && LF !in PREFIX;
  }

  lemma EndsInDigit(f: Frame)
    ensures Written(f) != [] && Digit(Written(f)[|Written(f)| - 1])
  {
    var t := Padded(f.txZeros, f.tx);
    assert Digit(t[|t| - 1]);
  }

  lemma NoRsNoMarker(text: Bytes, s: Bytes, j: nat)
    requires RS !in text && j < |text|
    ensures !OccursAt(text + s, PREFIX, j)
  {
    if OccursAt(text + s, PREFIX, j) {
      OccursStartsWithRs(text + s, j);
    }
  }

  lemma MarkerOfPiece(p: Piece)
    requires Ordinary(p)
    ensures LF !in LineOf(p)
    ensures p.frame.None? ==> Find(LineOf(p), PREFIX, 0) < 0
    ensures p.frame.Some? ==>
      Find(LineOf(p), PREFIX, 0) == |p.text| && LineOf(p)[|p.text|..] == Written(p.frame.value)
  {
    hide Written, Find;
    var s := if p.frame.Some? then Written(p.frame.value) else [];
    forall j: nat | j < |p.text| ensures !OccursAt(p.text + s, PREFIX, j) {
      NoRsNoMarker(p.text, s, j);
    }
    if p.frame.Some? {
      WrittenIsLine(p.frame.value);
      OccursShift(p.text, s, 0);
      FindIs(p.text + s, |p.text|);
    }
  }

  /** What the reference makes of one piece, as a line and as the unterminated end. */
  lemma PieceAlone(decode: Decoder, p: Piece)
    requires Ordinary(p)
    ensures var parse, l := ParserOf(decode), LineOf(p);
      && LineOutput(parse, l) == TextOf([p]) && LineCounters(parse, l) == CountersOf(decode, [p])
      && RestOutput(parse, l) == p.text && RestCounters(parse, l) == CountersOf(decode, [p])
  {
    hide Written, Find, Writable, CounterOf, Parse, RStrip;
    MarkerOfPiece(p);
    assert TextOf([p][1..]) == [] && CountersOf(decode, [p][1..]) == [];
    if p.frame.Some? {
      WrittenIsLine(p.frame.value);
      WrittenParses(decode, p.frame.value);
      assert LineOf(p)[..|p.text|] == p.text;
    }
  }

  /** The reference reading of a stream of pieces, the last one not terminated. */
  lemma {:induction false} ReferenceOfPieces(decode: Decoder, ps: seq<Piece>, last: Piece)
    requires Ordinary(last) && forall p :: p in ps ==> Ordinary(p)
    ensures var s := StreamOf(ps) + LineOf(last);
      && RefOutput(ParserOf(decode), s) == TextOf(ps) + last.text
      && RefCounters(ParserOf(decode), s) == CountersOf(decode, ps) + CountersOf(decode, [last])
    decreases |ps|
  {
    hide *;
    if ps == [] {
      LastPiece(decode, last);
    } else {
      ReferenceOfPieces(decode, ps[1..], last);
      FirstPiece(decode, ps, last);
    }
  }

  lemma LastPiece(decode: Decoder, last: Piece)
    requires Ordinary(last)
    ensures var s := StreamOf([]) + LineOf(last);
      && RefOutput(ParserOf(decode), s) == TextOf([]) + last.text
      && RefCounters(ParserOf(decode), s) == CountersOf(decode, []) + CountersOf(decode, [last])
  {
    hide LineOf, LineOutput, LineCounters, RestOutput, RestCounters, Ordinary, ParserOf;
    var s := StreamOf([]) + LineOf(last);
    PieceIsLine(last);
    PieceAlone(decode, last);
    assert s == LineOf(last);
    assert Lines(s) == [] && Rest(s) == s;
  }

  lemma FirstPiece(decode: Decoder, ps: seq<Piece>, last: Piece)
    requires ps != [] && Ordinary(ps[0])
    requires var t := StreamOf(ps[1..]) + LineOf(last);
      && RefOutput(ParserOf(decode), t) == TextOf(ps[1..]) + last.text
      && RefCounters(ParserOf(decode), t) == CountersOf(decode, ps[1..]) + CountersOf(decode, [last])
    ensures var s := StreamOf(ps) + LineOf(last);
      && RefOutput(ParserOf(decode), s) == TextOf(ps) + last.text
      && RefCounters(ParserOf(decode), s) == CountersOf(decode, ps) + CountersOf(decode, [last])
  {
    hide LineOf, RefOutput, RefCounters, LineOutput, LineCounters, RestOutput, RestCounters, Ordinary, ParserOf;
    var p, rest, parse := ps[0], ps[1..], ParserOf(decode);
    var t := StreamOf(rest) + LineOf(last);
    PieceIsLine(p);
    PieceAlone(decode, p);
    OnePiece(decode, p);
    assert StreamOf(ps) + LineOf(last) == LineOf(p) + [LF] + t;
    CutAtLf(LineOf(p), t);
    FirstLineOfReference(parse, LineOf(p) + [LF] + t, LineOf(p), t);
    Assoc(TextOf([p]), TextOf(rest), last.text);
    Assoc(CountersOf(decode, [p]), CountersOf(decode, rest), CountersOf(decode, [last]));
  }

  lemma CutAtLf(l: Bytes, t: Bytes)
    requires LF !in l
    ensures var s := l + [LF] + t; FindByte(s, LF) == |l| < |s| && s[..|l|] == l && s[|l| + 1..] == t
  {
    FindByteIs(l + [LF] + t, LF, |l|);
  }

  lemma OnePiece(decode: Decoder, p: Piece)
    ensures TextOf([p]) == p.text + (if p.frame.Some? then [] else [LF])
    ensures CountersOf(decode, [p]) == if p.frame.Some? then [CounterOf(decode, p.frame.value)] else []
  {
    assert [p][1..] == [];
  }

  lemma PieceIsLine(p: Piece)
    requires Ordinary(p)
    ensures LF !in LineOf(p) && FindByte(LineOf(p), LF) < 0
  {
    MarkerOfPiece(p);
  }

  lemma FirstLineOfReference(parse: Parser, s: Bytes, l: Bytes, t: Bytes)
    requires FindByte(s, LF) == |l| < |s| && s[..|l|] == l && s[|l| + 1..] == t
    ensures RefOutput(parse, s) == LineOutput(parse, l) + RefOutput(parse, t)
    ensures RefCounters(parse, s) == LineCounters(parse, l) + RefCounters(parse, t)
  {
    hide LineOutput, LineCounters, RestOutput, RestCounters;
    assert Lines(s) == [l] + Lines(t) && Rest(s) == Rest(t);
    assert ([l] + Lines(t))[1..] == Lines(t);
    Assoc(LineOutput(parse, l), LinesOutput(parse, Lines(t)), RestOutput(parse, Rest(t)));
  }

  // ---- the traffic of any sequence of counters ----

  /** Counter n is the newest of the route. */
  predicate NewestRoute(cs: seq<Counter>, n: nat) {
    n < |cs| && cs[n].route && forall k :: n < k < |cs| ==> !cs[k].route
  }

  /** Since counter i the route has kept its interface, and not longer. */
  predicate Since(cs: seq<Counter>, i: nat) {
    && i < |cs| && cs[i].route
    && (forall k :: i <= k < |cs| && cs[k].route ==> cs[k].interface == cs[i].interface)
    && (forall k: nat :: k < i && NewestRoute(cs[..i], k) ==> cs[k].interface != cs[i].interface)
  }

  /** Counter d is the newest of the route since i that has not received less than i. */
  predicate Received(cs: seq<Counter>, i: nat, d: nat) {
    && i <= d < |cs| && cs[d].route && cs[d].rx >= cs[i].rx
    && forall k :: d < k < |cs| && cs[k].route ==> cs[k].rx < cs[i].rx
  }

  /** The same for what was sent. */
  predicate Sent(cs: seq<Counter>, i: nat, u: nat) {
    && i <= u < |cs| && cs[u].route && cs[u].tx >= cs[i].tx
    && forall k :: u < k < |cs| && cs[k].route ==> cs[k].tx < cs[i].tx
  }

  /** The totals count from the first counter since the route has its interface; a counter
      that went back changes nothing; interface and address are the newest ones. */
  ghost predicate Totalled(cs: seq<Counter>, t: Traffic) {
    if forall k :: 0 <= k < |cs| ==> !cs[k].route then t == NoTraffic
    else exists i: nat, d: nat, u: nat, n: nat :: TotalledSince(cs, t, i, d, u, n)
  }

  predicate TotalledSince(cs: seq<Counter>, t: Traffic, i: nat, d: nat, u: nat, n: nat) {
    && Since(cs, i) && Received(cs, i, d) && Sent(cs, i, u) && NewestRoute(cs, n)
    && t == Traffic(Some(Baseline(cs[i].interface, cs[i].rx, cs[i].tx)),
                    cs[d].rx - cs[i].rx, cs[u].tx - cs[i].tx, cs[n].interface, cs[n].ip)
  }

  lemma {:induction false} TrafficExactly(cs: seq<Counter>)
    ensures Totalled(cs, ApplyAll(NoTraffic, cs))
    decreases |cs|
  {
    if cs != [] {
      var front, c := cs[..|cs| - 1], cs[|cs| - 1];
      assert cs == front + [c];
      ApplySnoc(NoTraffic, front, c);
      TrafficExactly(front);
      hide ApplyAll, Totalled;
      NextTotal(front, c, ApplyAll(NoTraffic, front));
    }
  }

  lemma NextTotal(front: seq<Counter>, c: Counter, t: Traffic)
    requires Totalled(front, t)
    ensures Totalled(front + [c], Apply(t, c))
  {
    hide TotalledSince, Apply;
    var cs := front + [c];
    if forall k :: 0 <= k < |front| ==> !front[k].route {
      FirstOfRoute(front, c);
      assert cs[|front|] == c;
    } else {
      var i: nat, d: nat, u: nat, n: nat :| TotalledSince(front, t, i, d, u, n);
      StretchGoesOn(front, c, t, i, d, u, n);
      StretchEnds(front, c, t, i, d, u, n);
      RouteKept(front, c, t, i, d, u, n);
    }
  }

  lemma RouteKept(front: seq<Counter>, c: Counter, t: Traffic, i: nat, d: nat, u: nat, n: nat)
    requires TotalledSince(front, t, i, d, u, n)
    ensures i < |front| && front[i].route && (front + [c])[i].route
  {
  }

  /** Nothing of the route so far. */
  lemma FirstOfRoute(front: seq<Counter>, c: Counter)
    requires forall k :: 0 <= k < |front| ==> !front[k].route
    ensures !c.route ==> Apply(NoTraffic, c) == NoTraffic
    ensures c.route ==> TotalledSince(front + [c], Apply(NoTraffic, c), |front|, |front|, |front|, |front|)
  {
    assert (front + [c])[..|front|] == front;
  }

  /** The first counter on another interface. */
  lemma StretchEnds(front: seq<Counter>, c: Counter, t: Traffic, i: nat, d: nat, u: nat, n: nat)
    requires TotalledSince(front, t, i, d, u, n)
    ensures c.route && c.interface != front[i].interface ==>
      TotalledSince(front + [c], Apply(t, c), |front|, |front|, |front|, |front|)
  {
    assert (front + [c])[..|front|] == front;
  }

  lemma StretchGoesOn(front: seq<Counter>, c: Counter, t: Traffic, i: nat, d: nat, u: nat, n: nat)
    requires TotalledSince(front, t, i, d, u, n)
    ensures !c.route || c.interface == front[i].interface ==>
      TotalledSince(front + [c], Apply(t, c), i, if c.route && c.rx >= front[i].rx then |front| else d,
                    if c.route && c.tx >= front[i].tx then |front| else u, if c.route then |front| else n)
  {
    assert (front + [c])[..i] == front[..i];
  }

  /** Whatever the chunks, a stream of pieces leaves the filter as its text, and the totals are
      those of its frames. */
  method FilterPieces(decode: Decoder, ps: seq<Piece>, last: Piece, chunks: seq<Bytes>)
      returns (output: Bytes, traffic: Traffic)
    requires Ordinary(last) && forall p :: p in ps ==> Ordinary(p)
    requires Flatten(chunks) == StreamOf(ps) + LineOf(last)
    ensures output == TextOf(ps) + last.text
    ensures Totalled(CountersOf(decode, ps + [last]), traffic)
  {
    hide *;
    output, traffic := FilterStream(decode, chunks);
    ReferenceOfPieces(decode, ps, last);
    CountersAppend(decode, ps, [last]);
    TrafficExactly(CountersOf(decode, ps + [last]));
  }

  lemma {:induction false} CountersAppend(decode: Decoder, ps: seq<Piece>, more: seq<Piece>)
    ensures CountersOf(decode, ps + more) == CountersOf(decode, ps) + CountersOf(decode, more)
  {
    if ps == [] {
      assert ps + more == more;
    } else {
      assert (ps + more)[1..] == ps[1..] + more;
      CountersAppend(decode, ps[1..], more);
    }
  }
}
