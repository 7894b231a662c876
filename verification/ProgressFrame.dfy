/** The two regular expressions of the progress filter, on records without line ends, and
    what a cut inside the first number of a frame does. */
module ProgressFrame {
  import opened ByteLines
  import opened Numerals
  import opened Options
  import opened ProgressFilter

  const B: Byte := 66
  const I: Byte := 105
  const O: Byte := 79
  const C: Byte := 67
  const D: Byte := 68
  const N: Byte := 78

  // ---- words ----

  predicate NoSpace(s: Bytes) {
    forall i :: 0 <= i < |s| ==> !Space(s[i])
  }

  predicate AllSpace(s: Bytes) {
    forall i :: 0 <= i < |s| ==> Space(s[i])
  }

  function SkipSpace(s: Bytes): (r: Bytes)
    ensures |r| <= |s| && (r != [] ==> !Space(r[0]))
  {
    if s != [] && Space(s[0]) then SkipSpace(s[1..]) else s
  }

  /** The bytes up to the first space. */
  function Word(s: Bytes): (w: Bytes)
    ensures |w| <= |s| && NoSpace(w) && w == s[..|w|]
    ensures s != [] && !Space(s[0]) ==> w != []
    ensures |w| < |s| ==> Space(s[|w|])
  {
    if s == [] || Space(s[0]) then [] else [s[0]] + Word(s[1..])
  }

  function Words(s: Bytes): seq<Bytes>
    decreases |s|
  {
    var r := SkipSpace(s);
    if r == [] then [] else [Word(r)] + Words(r[|Word(r)|..])
  }

  /** What follows the first n words. */
  function After(s: Bytes, n: nat): Bytes
    decreases n
  {
    if n == 0 then s
    else
      var r := SkipSpace(s);
      After(r[|Word(r)|..], n - 1)
  }

  // ---- numbers and units ----

  /** The number of digits at the start. */
  function DigitRun(s: Bytes): (n: nat)
    ensures n <= |s| && (forall i :: 0 <= i < n ==> Digit(s[i])) && (n < |s| ==> !Digit(s[n]))
  {
    if s == [] || !Digit(s[0]) then 0 else 1 + DigitRun(s[1..])
  }

  /** Digits, and after a point or comma more digits. */
  predicate Number(w: Bytes) {
    var n := DigitRun(w);
    n > 0 && (n == |w| || ((w[n] == 46 || w[n] == 44) && Digits(w[n + 1..])))
  }

  /** The place of a prefix letter among k K M G T P E, or 0. */
  function Power(b: Byte): nat {
    if b == 107 || b == 75 then 1 else if b == 77 then 2 else if b == 71 then 3
    else if b == 84 then 4 else if b == 80 then 5 else if b == 69 then 6 else 0
  }

  predicate Unit(w: Bytes) {
    || w == [B] || w == [I, B]
    || (|w| == 2 && Power(w[0]) > 0 && w[1] == B)
    || (|w| == 3 && Power(w[0]) > 0 && w[1] == I && w[2] == B)
  }

  function Pow(base: nat, e: nat): nat {
    if e == 0 then 1 else base * Pow(base, e - 1)
  }

  /** The factor of a unit; the pattern accepts a bare iB, the table does not know it. */
  function Multiplier(unit: Bytes): Option<nat> {
    if unit == [B] then Some(1)
    else if |unit| == 2 && Power(unit[0]) > 0 then Some(Pow(1000, Power(unit[0])))
    else if |unit| == 3 then Some(Pow(1024, Power(unit[0])))
    else None
  }

  function Value(w: Bytes): real
    requires Number(w)
  {
    var n := DigitRun(w);
    if n == |w| then Natural(w) as real
    else Natural(w[..n]) as real + Natural(w[n + 1..]) as real / Pow10(|w| - n - 1)
  }

  function Pow10(e: nat): (r: real)
    ensures r >= 1.0
  {
    if e == 0 then 1.0 else 10.0 * Pow10(e - 1)
  }

  /** Floats are below two to this power. */
  const FLOAT_BITS := 1024

  function Pow2(e: nat): real {
    if e == 0 then 1.0 else 2.0 * Pow2(e - 1)
  }

  /** `_size_bytes`, without rounding; a value too large for a float raises. */
  function Size(w: Bytes, unit: Bytes): Option<nat>
    requires Number(w)
  {
    match Multiplier(unit)
    case None => None
    case Some(m) => Scaled(Value(w), m)
  }

  function Scaled(value: real, factor: nat): Option<nat> {
    Rounded(value * factor as real)
  }

  function Rounded(size: real): Option<nat> {
    if 0.0 <= size < Pow2(FLOAT_BITS) then Some(size.Floor) else None
  }

  // ---- the patterns ----

  /** Number, unit and marker letter at words k, k + 1 and k + 2. */
  predicate Amount(ws: seq<Bytes>, k: nat, letter: Byte) {
    k + 2 < |ws| && Number(ws[k]) && Unit(ws[k + 1]) && ws[k + 2] == [letter]
  }

  predicate FrameWords(ws: seq<Bytes>) {
    |ws| >= 11 && Amount(ws, 0, O) && Amount(ws, 3, C) && Amount(ws, 6, D) && Digits(ws[9]) && ws[10] == [N]
  }

  /** `parse_borg_create_progress`; `text` decodes and strips the path. */
  function ParseWords(text: Bytes -> string, ws: seq<Bytes>, path: Bytes): Option<Progress> {
    if !FrameWords(ws) then None
    else
      match (Size(ws[0], ws[1]), Size(ws[3], ws[4]), Size(ws[6], ws[7]))
      case (Some(original), Some(compressed), Some(deduplicated)) =>
        if |ws[9]| > MAX_DIGITS then None
        else Some(Progress(original, compressed, deduplicated, Natural(ws[9]), text(path)))
      case _ => None
  }

  function Parse(text: Bytes -> string, record: Bytes): Option<Progress> {
    ParseWords(text, Words(record), After(record, 11))
  }

  /** `_PREFIX_RE`: a number and a unit, then nothing or the O marker. */
  predicate PrefixMatch(s: Bytes) {
    var ws := Words(s);
    && |ws| >= 2 && Number(ws[0]) && Unit(ws[1])
    && if |ws| == 2 then !Space(s[|s| - 1]) else ws[2] == [O]
  }

  function BorgPatterns(text: Bytes -> string): Patterns {
    Patterns(record => Parse(text, record), PrefixMatch)
  }

  // ---- words of composed records ----

  lemma {:induction false} SkipSpaces(ws: Bytes, s: Bytes)
    requires AllSpace(ws)
    ensures SkipSpace(ws + s) == SkipSpace(s)
  {
    if ws == [] {
      assert ws + s == s;
    } else {
      assert (ws + s)[1..] == ws[1..] + s;
      SkipSpaces(ws[1..], s);
    }
  }

  lemma {:induction false} WordThen(w: Bytes, s: Bytes)
    requires NoSpace(w) && (s == [] || Space(s[0]))
    ensures Word(w + s) == w
  {
    if w == [] {
      assert w + s == s;
    } else {
      assert (w + s)[1..] == w[1..] + s;
      WordThen(w[1..], s);
    }
  }

  /** Spaces, a word, and the rest of the record. */
  lemma {:induction false} FirstWord(ws: Bytes, w: Bytes, s: Bytes)
    requires AllSpace(ws) && w != [] && NoSpace(w) && (s == [] || Space(s[0]))
    ensures Words(ws + w + s) == [w] + Words(s)
    ensures forall n: nat :: After(ws + w + s, n + 1) == After(s, n)
  {
    hide Word, AllSpace;
    assert ws + w + s == ws + (w + s);
    SkipSpaces(ws, w + s);
    assert !Space((w + s)[0]);
    WordThen(w, s);
    assert (w + s)[|w|..] == s;
  }

  /** What a number is written with. */
  predicate Numeric(s: Bytes) {
    forall i :: 0 <= i < |s| ==> Digit(s[i]) || s[i] == 46 || s[i] == 44
  }

  lemma NumberIsNumeric(w: Bytes)
    requires Number(w)
    ensures Numeric(w) && NoSpace(w) && w != []
  {
    var n := DigitRun(w);
    forall i | 0 <= i < |w| ensures Digit(w[i]) || w[i] == 46 || w[i] == 44 {
      if i > n {
        assert w[i] == w[n + 1..][i - n - 1];
      }
    }
  }

  lemma NoLetters(ws: Bytes, w: Bytes)
    requires AllSpace(ws) && Numeric(w) && w != []
    ensures forall k :: 0 <= k < |ws + w| ==> (ws + w)[k] < 65
    ensures (ws + w)[|ws + w| - 1] != SPACE
  {
    forall k | 0 <= k < |ws + w| ensures (ws + w)[k] < 65 {
      assert (ws + w)[k] == if k < |ws| then ws[k] else w[k - |ws|];
    }
  }

  /** A marker starts with a space and a letter, so spaces and a number in front hold none. */
  lemma {:induction false} MarkerBehindNumber(ws: Bytes, w: Bytes, s: Bytes, mark: Bytes)
    requires AllSpace(ws) && Numeric(w) && w != []
    requires |mark| >= 2 && mark[0] == SPACE && mark[1] >= 65
    ensures Contains(ws + w + s, mark) <==> Contains(s, mark)
  {
    hide AllSpace, Numeric;
    NoLetters(ws, w);
    MarkerBehind(ws + w, s, mark);
  }

  lemma NotInHead(h: Bytes, s: Bytes, mark: Bytes, i: nat)
    requires h != [] && h[|h| - 1] != SPACE && forall k :: 0 <= k < |h| ==> h[k] < 65
    requires |mark| >= 2 && mark[0] == SPACE && mark[1] >= 65
    requires OccursAt(h + s, mark, i)
    ensures i >= |h|
  {
    var p := h + s;
    assert p[i] == p[i..i + |mark|][0] == mark[0] && p[i + 1] == p[i..i + |mark|][1] == mark[1];
    assert forall k :: 0 <= k < |h| ==> p[k] == h[k];
  }

  lemma OccursInTail(h: Bytes, s: Bytes, mark: Bytes, i: nat)
    requires OccursAt(h + s, mark, i) && i >= |h|
    ensures OccursAt(s, mark, i - |h|)
  {
    assert s[i - |h|..i - |h| + |mark|] == (h + s)[i..i + |mark|];
  }

  lemma {:induction false} MarkerBehind(h: Bytes, s: Bytes, mark: Bytes)
    requires h != [] && h[|h| - 1] != SPACE && forall k :: 0 <= k < |h| ==> h[k] < 65
    requires |mark| >= 2 && mark[0] == SPACE && mark[1] >= 65
    ensures Contains(h + s, mark) <==> Contains(s, mark)
  {
    var p, n := h + s, |h|;
    var i, j := Find(p, mark, 0), Find(s, mark, 0);
    if j >= 0 {
      assert p[n + j..n + j + |mark|] == s[j..j + |mark|];
      assert OccursAt(p, mark, n + j);
    }
    if i >= 0 {
      NotInHead(h, s, mark, i);
      OccursInTail(h, s, mark, i);
    }
  }

  lemma MarkersBehindNumber(text: Bytes -> string, ws: Bytes, w: Bytes, s: Bytes)
    requires AllSpace(ws) && Numeric(w) && w != []
    ensures Frame(BorgPatterns(text), ws + w + s) <==>
      && Contains(s, O_MARK) && Contains(s, C_MARK) && Contains(s, D_MARK) && Contains(s, N_MARK)
      && Parse(text, ws + w + s).Some?
  {
    hide Contains, Parse;
    MarkerBehindNumber(ws, w, s, O_MARK);
    MarkerBehindNumber(ws, w, s, C_MARK);
    MarkerBehindNumber(ws, w, s, D_MARK);
    MarkerBehindNumber(ws, w, s, N_MARK);
  }

  /** The record of a first number and the rest of a frame. */
  lemma {:induction false} ParseNumber(text: Bytes -> string, ws: Bytes, w: Bytes, s: Bytes)
    requires AllSpace(ws) && w != [] && NoSpace(w) && s != [] && Space(s[0])
    ensures Parse(text, ws + w + s) == ParseWords(text, [w] + Words(s), After(s, 10))
  {
    hide AllSpace, ParseWords;
    FirstWord(ws, w, s);
    assert After(ws + w + s, 10 + 1) == After(s, 10);
  }

  lemma NothingContained(mark: Bytes)
    requires mark != []
    ensures !Contains([], mark)
  {
  }

  /** A beginning of a frame that ends inside its first number is not held back. */
  lemma {:induction false} NumberImplausible(text: Bytes -> string, ws: Bytes, a: Bytes)
    requires AllSpace(ws) && Numeric(a) && a != []
    ensures !Plausible(BorgPatterns(text), ws + a)
  {
    hide AllSpace, Contains;
    assert ws + a + [] == ws + a;
    MarkerBehindNumber(ws, a, [], O_MARK);
    NothingContained(O_MARK);
    FirstWord(ws, a, []);
  }

  // ---- a frame cut inside its first number ----

  /** Taken for a first number of its own, in front of s. */
  predicate Mistaken(b: Bytes, s: Bytes) {
    Number(b) && Words(s) != [] && Size(b, Words(s)[0]).Some?
  }

  /** What the mistaken rest reports: the frame with another original size. */
  ghost predicate Misreported(p: Option<Progress>, q: Option<Progress>, b: Bytes, s: Bytes) {
    p.Some? && Mistaken(b, s) && q == Some(p.value.(original := Size(b, Words(s)[0]).value))
  }

  lemma {:induction false} FirstNumber(text: Bytes -> string, ws: Bytes, a: Bytes, b: Bytes, s: Bytes)
    requires AllSpace(ws) && a != [] && b != [] && Number(a + b) && s != [] && Space(s[0])
    requires Frame(BorgPatterns(text), ws + (a + b) + s)
    ensures !Plausible(BorgPatterns(text), ws + a)
    ensures Mistaken(b, s) <==> Frame(BorgPatterns(text), b + s)
    ensures Mistaken(b, s) ==> Misreported(Parse(text, ws + (a + b) + s), Parse(text, b + s), b, s)
  {
    hide Number, Size, Numeric, AllSpace, Plausible, Contains, Frame, Parse, Words, After, NoSpace, Mistaken,
         Misreported, ParseWords;
    NumberIsNumeric(a + b);
    Halves(a, b);
    NumberImplausible(text, ws, a);
    EmptyIsSpace();
    assert [] + b + s == b + s;
    MarkersBehindNumber(text, ws, a + b, s);
    MarkersBehindNumber(text, [], b, s);
    ParseNumber(text, ws, a + b, s);
    ParseNumber(text, [], b, s);
    OtherFirst(text, a + b, b, s, After(s, 10));
  }

  lemma Halves(a: Bytes, b: Bytes)
    requires Numeric(a + b) && NoSpace(a + b)
    ensures Numeric(a) && Numeric(b) && NoSpace(a) && NoSpace(b)
  {
    forall i | 0 <= i < |a| ensures (Digit(a[i]) || a[i] == 46 || a[i] == 44) && !Space(a[i]) {
      assert (a + b)[i] == a[i];
    }
    forall i | 0 <= i < |b| ensures (Digit(b[i]) || b[i] == 46 || b[i] == 44) && !Space(b[i]) {
      assert (a + b)[|a| + i] == b[i];
    }
  }

  lemma EmptyIsSpace()
    ensures AllSpace([])
  {
  }

  /** Exchanging the first number of a frame. */
  lemma OtherFirst(text: Bytes -> string, w: Bytes, v: Bytes, s: Bytes, path: Bytes)
    requires ParseWords(text, [w] + Words(s), path).Some?
    ensures Mistaken(v, s) <==> ParseWords(text, [v] + Words(s), path).Some?
    ensures Mistaken(v, s) ==>
      Misreported(ParseWords(text, [w] + Words(s), path), ParseWords(text, [v] + Words(s), path), v, s)
  {
    hide Number, Size, Unit, Digits, Natural, Words;
    var ws := Words(s);
    forall k: nat | k < |ws| ensures ([w] + ws)[k + 1] == ([v] + ws)[k + 1] == ws[k] {
    }
  }

  /** The frame ws + a + b + s, whose first number is a + b, cut between a and b. Nothing is
      held back, so a is passed through. If b is a number itself that converts, the rest is
      taken for a frame with that number as its original size and removed; otherwise the
      rest is passed through too. Uncut, the frame is removed. */
  lemma {:induction false} CutInsideFirstNumber(text: Bytes -> string, ws: Bytes, a: Bytes, b: Bytes, s: Bytes)
    requires AllSpace(ws) && a != [] && b != [] && Number(a + b) && s != [] && Space(s[0])
    requires var frame := ws + a + b + s; FirstBreak(frame, 0) < 0 && Frame(BorgPatterns(text), frame)
    ensures var pat := BorgPatterns(text);
      && Output(pat, [], [ws + a + b + s + [LF]]) == []
      && Output(pat, [], [ws + a, b + s + [LF]]) == (if Mistaken(b, s) then ws + a else ws + a + b + s + [LF])
      && (Mistaken(b, s) ==> Misreported(Parse(text, ws + a + b + s), Parse(text, b + s), b, s))
  {
    hide *;
    assert ws + a + b + s == ws + (a + b) + s;
    FirstNumber(text, ws, a, b, s);
    assert ws + a + b + s == (ws + a) + (b + s);
    StartNotEmpty(ws, a);
    FrameCut(BorgPatterns(text), ws + a, b + s);
    assert ws + a + (b + s) + [LF] == ws + a + b + s + [LF];
  }

  lemma StartNotEmpty(ws: Bytes, a: Bytes)
    requires a != []
    ensures ws + a != []
  {
  }

  // ---- the two outcomes, on real frames ----

  /** " kB O 3 kB C 4 kB D 5 N" */
  const TAIL: Bytes := [32, 107, 66, 32, 79, 32, 51, 32, 107, 66, 32, 67, 32, 52, 32, 107, 66, 32, 68, 32, 53, 32, 78]

  const KB: Bytes := [107, B]

  lemma NextWord(w: Bytes, s: Bytes, ws: seq<Bytes>)
    requires w != [] && NoSpace(w) && (s == [] || Space(s[0])) && Words(s) == ws
    ensures Words([SPACE] + w + s) == [w] + ws
  {
    FirstWord([SPACE], w, s);
  }

  lemma TailWords()
    ensures Words(TAIL) == [KB, [O], [51], KB, [C], [52], KB, [D], [53], [N]]
  {
    hide Words, EndOfTail;
    var ws, s3 := MiddleWords();
    var s2 := [SPACE] + [51] + s3;
    NextWord([51], s3, ws);
    var s1 := [SPACE] + [O] + s2;
    NextWord([O], s2, [[51]] + ws);
    NextWord(KB, s1, [[O]] + ([[51]] + ws));
    TailIs(s3);
  }

  lemma MiddleWords() returns (ws: seq<Bytes>, s: Bytes)
    ensures ws == [KB, [C], [52], KB, [D], [53], [N]]
    ensures s == [SPACE] + KB + ([SPACE] + [C] + EndOfTail()) && Words(s) == ws
  {
    hide Words, EndOfTail;
    var end := LastWords();
    NextWord([C], EndOfTail(), end);
    NextWord(KB, [SPACE] + [C] + EndOfTail(), [[C]] + end);
    ws := [KB] + ([[C]] + end);
    s := [SPACE] + KB + ([SPACE] + [C] + EndOfTail());
  }

  lemma TailIs(s: Bytes)
    requires s == [SPACE] + KB + ([SPACE] + [C] + EndOfTail())
    ensures TAIL == [SPACE] + KB + ([SPACE] + [O] + ([SPACE] + [51] + s))
  {
  }

  /** " 4 kB D 5 N" */
  function EndOfTail(): (s: Bytes)
    ensures s != [] && Space(s[0])
  {
    [SPACE, 52, SPACE, 107, B, SPACE, D, SPACE, 53, SPACE, N]
  }

  lemma LastWords() returns (ws: seq<Bytes>)
    ensures ws == [[52], KB, [D], [53], [N]] && Words(EndOfTail()) == ws
  {
    hide Words;
    NoWords();
    var s9 := [SPACE] + [N] + [];
    NextWord([N], [], []);
    var s8 := [SPACE] + [53] + s9;
    NextWord([53], s9, [[N]]);
    var s7 := [SPACE] + [D] + s8;
    NextWord([D], s8, [[53], [N]]);
    var s6 := [SPACE] + KB + s7;
    NextWord(KB, s7, [[D], [53], [N]]);
    NextWord([52], s6, [KB, [D], [53], [N]]);
    assert EndOfTail() == [SPACE] + [52] + s6;
    ws := [[52], KB, [D], [53], [N]];
  }

  lemma NoWords()
    ensures Words([]) == []
  {
  }

  lemma TailMarkers()
    ensures Contains(TAIL, O_MARK) && Contains(TAIL, C_MARK) && Contains(TAIL, D_MARK) && Contains(TAIL, N_MARK)
  {
    assert OccursAt(TAIL, O_MARK, 3);
    assert OccursAt(TAIL, C_MARK, 10);
    assert OccursAt(TAIL, D_MARK, 17);
    assert OccursAt(TAIL, N_MARK, 21);
  }

  lemma {:induction false} Pow2Large(n: nat)
    ensures Pow2(n + 20) == 1048576.0 * Pow2(n) && Pow2(n) >= 1.0
  {
    if n == 0 {
      assert Pow2(10) == 1024.0 * Pow2(0);
      assert Pow2(20) == 1024.0 * Pow2(10);
    } else {
      Pow2Large(n - 1);
    }
  }

  lemma {:induction false} NaturalBound(s: Bytes)
    ensures Natural(s) < Pow(10, |s|)
  {
    if s != [] {
      NaturalBound(s[..|s| - 1]);
    }
  }

  lemma PowTen()
    ensures Pow(10, 1) == 10 && Pow(10, 2) == 100 && Pow(10, 3) == 1000 && Pow(10, 4) == 10000
  {
    assert Pow(10, 2) == 10 * Pow(10, 1) && Pow(10, 3) == 10 * Pow(10, 2);
  }

  lemma SmallValue(w: Bytes)
    requires Number(w) && |w| <= 4
    ensures 0.0 <= Value(w) < 20000.0
  {
    hide Digits;
    var n := DigitRun(w);
    PowTen();
    NaturalBound(w);
    NaturalBound(w[..n]);
    if n < |w| {
      NaturalBound(w[n + 1..]);
      Quotient(Natural(w[n + 1..]) as real, Pow10(|w| - n - 1));
    }
  }

  lemma Quotient(x: real, y: real)
    requires x >= 0.0 && y >= 1.0
    ensures 0.0 <= x / y <= x
  {
    assert x / y * y == x;
    assert x / y * (y - 1.0) >= 0.0;
  }

  /** Every number of at most four characters, in kB, converts. */
  lemma SmallSize(w: Bytes)
    requires Number(w) && |w| <= 4
    ensures Size(w, KB).Some?
  {
    hide Value, Number;
    SmallValue(w);
    Pow2Large(1004);
    Pow2Large(984);
    assert Pow(1000, 1) == 1000 * Pow(1000, 0) == 1000;
    assert Power(107) == 1 && Multiplier(KB) == Some(1000);
  }

  lemma TailParses(text: Bytes -> string, w: Bytes, path: Bytes)
    requires Number(w) && |w| <= 4
    ensures ParseWords(text, [w] + Words(TAIL), path).Some?
  {
    hide Size, Number, Words, Natural, Digits;
    TailWords();
    SmallSize(w);
    OneDigit(51);
    OneDigit(52);
    OneDigit(53);
    SmallSize([51]);
    SmallSize([52]);
    var ws := [w] + Words(TAIL);
    assert ws == [w, KB, [O], [51], KB, [C], [52], KB, [D], [53], [N]];
  }

  /** w, followed by the tail, is a frame. */
  lemma SmallFrame(text: Bytes -> string, w: Bytes)
    requires Number(w) && |w| <= 4
    ensures Frame(BorgPatterns(text), w + TAIL)
  {
    hide *;
    NumberIsNumeric(w);
    EmptyIsSpace();
    TailStart();
    assert [] + w + TAIL == w + TAIL;
    TailMarkers();
    MarkersBehindNumber(text, [], w, TAIL);
    ParseNumber(text, [], w, TAIL);
    TailParses(text, w, After(TAIL, 10));
  }

  lemma OneDigit(b: Byte)
    requires Digit(b)
    ensures Number([b]) && Digits([b])
  {
    assert DigitRun([b]) == 1 + DigitRun([b][1..]);
  }

  lemma NoBreaks(w: Bytes)
    requires Numeric(w)
    ensures FirstBreak(w + TAIL, 0) < 0
  {
    forall k | 0 <= k < |w + TAIL| ensures !Break((w + TAIL)[k]) {
      assert (w + TAIL)[k] == if k < |w| then w[k] else TAIL[k - |w|];
    }
  }

  /** "12.5 kB O ..." cut after "1": only the "1" is let through, and 2.5 kB are reported. */
  lemma CutBetweenDigits(text: Bytes -> string)
    ensures var pat, frame := BorgPatterns(text), [49, 50, 46, 53] + TAIL;
      && Output(pat, [], [frame + [LF]]) == []
      && Output(pat, [], [[49], [50, 46, 53] + TAIL + [LF]]) == [49]
      && Misreported(Parse(text, frame), Parse(text, [50, 46, 53] + TAIL), [50, 46, 53], TAIL)
  {
    hide Number, Frame, Parse, Words, Size, Misreported, Output;
    var a, b: Bytes := [49], [50, 46, 53];
    assert a + b == [49, 50, 46, 53];
    Decimals();
    SmallSize(b);
    TailWords();
    CutWitness(text, a, b);
  }

  /** The same frame cut before the point: ".5 kB O ..." is no frame, so all of it is let through. */
  lemma CutBeforePoint(text: Bytes -> string)
    ensures var pat, frame := BorgPatterns(text), [49, 50, 46, 53] + TAIL;
      && Output(pat, [], [frame + [LF]]) == []
      && Output(pat, [], [[49, 50], [46, 53] + TAIL + [LF]]) == frame + [LF]
  {
    hide Number, Frame, Parse, Words, Size, Misreported, Output;
    var a, b: Bytes := [49, 50], [46, 53];
    assert a + b == [49, 50, 46, 53];
    Decimals();
    CutWitness(text, a, b);
  }

  lemma Decimals()
    ensures Number([49, 50, 46, 53]) && Number([50, 46, 53]) && !Number([46, 53])
  {
    assert [50, 46, 53][1..] == [46, 53] && [49, 50, 46, 53][1..] == [50, 46, 53];
    assert DigitRun([46, 53]) == 0 && DigitRun([50, 46, 53]) == 1 && DigitRun([49, 50, 46, 53]) == 2;
    assert [49, 50, 46, 53][3..] == [53] && [50, 46, 53][2..] == [53];
  }

  lemma CutWitness(text: Bytes -> string, a: Bytes, b: Bytes)
    requires a != [] && b != [] && Number(a + b) && |a + b| <= 4
    ensures var pat := BorgPatterns(text);
      && Output(pat, [], [a + b + TAIL + [LF]]) == []
      && Output(pat, [], [a, b + TAIL + [LF]]) == (if Mistaken(b, TAIL) then a else a + b + TAIL + [LF])
      && (Mistaken(b, TAIL) ==> Misreported(Parse(text, a + b + TAIL), Parse(text, b + TAIL), b, TAIL))
  {
    hide *;
    SmallFrame(text, a + b);
    NumberIsNumeric(a + b);
    NoBreaks(a + b);
    EmptyIsSpace();
    TailStart();
    assert [] + a + b + TAIL == a + b + TAIL && [] + a == a;
    CutInsideFirstNumber(text, [], a, b, TAIL);
  }

  lemma TailStart()
    ensures TAIL != [] && Space(TAIL[0])
  {
  }
}
