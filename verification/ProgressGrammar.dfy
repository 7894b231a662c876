/** Progress frames and their beginnings as they are written, and what the filter makes of them. */
module ProgressGrammar {
  import opened ByteLines
  import opened Numerals
  import opened Options
  import opened ProgressFilter
  import opened ProgressFrame

  // ---- how amounts are written ----

  datatype Scale = One | Kilo | KiloUpper | Mega | Giga | Tera | Peta | Exa

  /** A number with or without decimals, and its unit. */
  datatype Amounts = Amounts(whole: Bytes, fraction: Option<Bytes>, comma: bool, scale: Scale, binary: bool)

  predicate Proper(q: Amounts) {
    Digits(q.whole) && (q.fraction.Some? ==> Digits(q.fraction.value))
  }

  function NumberText(q: Amounts): Bytes {
    q.whole + match q.fraction
              case None => []
              case Some(digits) => [if q.comma then 44 else 46] + digits
  }

  function UnitText(q: Amounts): Bytes {
    (match q.scale
     case One => []
     case Kilo => [107]
     case KiloUpper => [75]
     case Mega => [77]
     case Giga => [71]
     case Tera => [84]
     case Peta => [80]
     case Exa => [69])
    + (if q.binary then [105] else []) + [66]
  }

  /** What one of the unit is; there is no binary byte. */
  function Factor(q: Amounts): Option<nat> {
    match q.scale
    case One => if q.binary then None else Some(1)
    case Kilo => Some(if q.binary then 1024 else 1000)
    case KiloUpper => Some(if q.binary then 1024 else 1000)
    case Mega => Some(if q.binary then 1048576 else 1000000)
    case Giga => Some(if q.binary then 1073741824 else 1000000000)
    case Tera => Some(if q.binary then 1099511627776 else 1000000000000)
    case Peta => Some(if q.binary then 1125899906842624 else 1000000000000000)
    case Exa => Some(if q.binary then 1152921504606846976 else 1000000000000000000)
  }

  /** The amount in bytes, rounded down, unless it is too large for a float. */
  function BytesOf(q: Amounts): Option<nat> {
    match Factor(q)
    case None => None
    case Some(m) => Quotient(DecimalDigits(q), Pow(10, Decimals(q)), m)
  }

  /** digits / scale times the factor. */
  function Quotient(digits: nat, scale: nat, factor: nat): Option<nat> {
    Divided(digits * factor, scale)
  }

  function Divided(all: nat, scale: nat): Option<nat> {
    if scale > 0 && Fits(all, scale) then Some(Part(all, scale)) else None
  }

  predicate Fits(all: nat, scale: nat) {
    all < Pow(2, FLOAT_BITS) * scale
  }

  function Part(all: nat, scale: nat): nat
    requires scale > 0
  {
    all / scale
  }

  /** The number without its point or comma, and how many decimals it has. */
  function DecimalDigits(q: Amounts): nat {
    match q.fraction
    case None => Natural(q.whole)
    case Some(digits) => Natural(q.whole) * Pow(10, |digits|) + Natural(digits)
  }

  function Decimals(q: Amounts): nat {
    if q.fraction.Some? then |q.fraction.value| else 0
  }

  lemma {:induction false} RunOfDigits(w: Bytes, s: Bytes)
    requires (forall i :: 0 <= i < |w| ==> Digit(w[i])) && (s == [] || !Digit(s[0]))
    ensures DigitRun(w + s) == |w|
  {
    var n := DigitRun(w + s);
    assert forall i :: 0 <= i < |w| ==> (w + s)[i] == w[i];
    assert s != [] ==> (w + s)[|w|] == s[0];
  }

  /** The parts `Number` looks at. */
  lemma NumberParts(q: Amounts)
    requires Proper(q)
    ensures var w, n := NumberText(q), |q.whole|;
      && Number(w) && DigitRun(w) == n && w[..n] == q.whole
      && (q.fraction.None? ==> n == |w|) && (q.fraction.Some? ==> n < |w| && w[n + 1..] == q.fraction.value)
  {
    hide DigitRun;
    var w, n := NumberText(q), |q.whole|;
    RunOfDigits(q.whole, w[n..]);
    assert w == q.whole + w[n..];
  }

  /** Every number is written so. */
  lemma NumberIsText(w: Bytes) returns (q: Amounts)
    requires Number(w)
    ensures Proper(q) && NumberText(q) == w
  {
    hide DigitRun;
    var n := DigitRun(w);
    if n == |w| {
      q := Amounts(w, None, false, One, false);
    } else {
      q := Amounts(w[..n], Some(w[n + 1..]), w[n] == 44, One, false);
      assert w == w[..n] + [w[n]] + w[n + 1..];
    }
  }

  /** Units, and only these, are units. */
  lemma UnitIsText(w: Bytes)
    ensures Unit(w) <==> exists q: Amounts :: UnitText(q) == w
  {
    if Unit(w) {
      var q := UnitOf(w);
      assert UnitText(q) == w;
    }
    forall q: Amounts | UnitText(q) == w ensures Unit(w) {
      TextIsUnit(q);
    }
  }

  lemma TextIsUnit(q: Amounts)
    ensures Unit(UnitText(q)) && NoSpace(UnitText(q)) && UnitText(q) != []
  {
  }

  lemma UnitOf(w: Bytes) returns (q: Amounts)
    requires Unit(w)
    ensures UnitText(q) == w
  {
    var scale := match w[0]
      case 107 => Kilo
      case 75 => KiloUpper
      case 77 => Mega
      case 71 => Giga
      case 84 => Tera
      case 80 => Peta
      case 69 => Exa
      case _ => One;
    q := Amounts([], None, false, scale, |w| >= 2 && w[|w| - 2] == 105);
  }

  lemma FactorIsMultiplier(q: Amounts)
    ensures Multiplier(UnitText(q)) == Factor(q)
  {
    Thousands();
  }

  lemma Thousands()
    ensures Pow(1000, 1) == 1000 && Pow(1000, 2) == 1000000 && Pow(1000, 3) == 1000000000
    ensures Pow(1000, 4) == 1000000000000 && Pow(1000, 5) == 1000000000000000
    ensures Pow(1000, 6) == 1000000000000000000
    ensures Pow(1024, 1) == 1024 && Pow(1024, 2) == 1048576 && Pow(1024, 3) == 1073741824
    ensures Pow(1024, 4) == 1099511627776 && Pow(1024, 5) == 1125899906842624
    ensures Pow(1024, 6) == 1152921504606846976
  {
    assert Pow(1000, 0) == 1 && Pow(1024, 0) == 1;
  }

  lemma {:induction false} PowersAreReal(e: nat)
    ensures Pow10(e) == Pow(10, e) as real && Pow2(e) == Pow(2, e) as real && Pow(10, e) > 0
  {
    if e > 0 {
      PowersAreReal(e - 1);
      ProductIsReal(10, Pow(10, e - 1));
      ProductIsReal(2, Pow(2, e - 1));
    }
  }

  /** Real division rounded down is the division of whole numbers. */
  lemma PartIsFloor(size: real, all: nat, p: nat)
    requires p > 0 && size * p as real == all as real
    ensures size.Floor == Part(all, p) && 0.0 <= size
  {
    hide Part;
    PartBounds(all, p);
    QuotientBounds(all, p, Part(all, p), size);
    Between(Part(all, p), size);
  }

  lemma PartBounds(x: nat, p: nat)
    requires p > 0
    ensures Part(x, p) * p <= x < (Part(x, p) + 1) * p
  {
    assert x == x / p * p + x % p;
    assert (x / p + 1) * p == x / p * p + p;
  }

  lemma FitsIsSmall(size: real, all: nat, p: nat)
    requires p > 0 && size * p as real == all as real
    ensures Fits(all, p) <==> size < Pow2(FLOAT_BITS)
  {
    hide Pow, Pow2;
    PowersAreReal(FLOAT_BITS);
    UnderLimit(all, p, Pow(2, FLOAT_BITS), size);
  }

  lemma UnderLimit(x: nat, p: nat, limit: nat, r: real)
    requires p > 0 && r * p as real == x as real
    ensures r < limit as real <==> x < limit * p
  {
    ProductIsReal(limit, p);
    Below(r, limit as real, p as real);
  }

  lemma QuotientBounds(x: nat, p: nat, n: nat, r: real)
    requires p > 0 && r * p as real == x as real && n * p <= x < (n + 1) * p
    ensures n as real <= r < (n + 1) as real
  {
    ProductIsReal(n, p);
    ProductIsReal(n + 1, p);
    Below(r, n as real, p as real);
    Below(r, (n + 1) as real, p as real);
  }

  lemma Below(a: real, b: real, p: real)
    requires p > 0.0
    ensures a < b <==> a * p < b * p
  {
    if a < b {
      Product(a, b, p);
    } else {
      NotProduct(b, a, p);
    }
  }

  lemma Product(a: real, b: real, p: real)
    requires p > 0.0 && a < b
    ensures a * p < b * p
  {
  }

  lemma NotProduct(a: real, b: real, p: real)
    requires p > 0.0 && a <= b
    ensures a * p <= b * p
  {
  }

  lemma Between(n: nat, r: real)
    requires n as real <= r < (n + 1) as real
    ensures r.Floor == n
  {
  }

  lemma ProductIsReal(a: nat, b: nat)
    ensures (a * b) as real == a as real * b as real
  {
  }

  /** The value of the parts. */
  lemma ValueOfParts(q: Amounts)
    requires Proper(q)
    ensures Number(NumberText(q)) && Pow10(Decimals(q)) == Pow(10, Decimals(q)) as real && Pow(10, Decimals(q)) > 0
    ensures Value(NumberText(q)) == match q.fraction
      case None => Natural(q.whole) as real
      case Some(digits) => Natural(q.whole) as real + Natural(digits) as real / Pow10(|digits|)
  {
    NumberParts(q);
    PowersAreReal(Decimals(q));
    hide Natural, Pow, Pow10, Number, DigitRun, NumberText;
    var w := NumberText(q);
    if q.fraction.None? {
      assert w == w[..|w|] == q.whole;
    }
  }

  /** A value in whole numbers. */
  lemma ValueIsQuotient(q: Amounts)
    requires Proper(q)
    ensures Number(NumberText(q)) && Pow(10, Decimals(q)) > 0
    ensures Value(NumberText(q)) * Pow(10, Decimals(q)) as real == DecimalDigits(q) as real
  {
    hide Natural, Pow, Pow10, Number, NumberText, Value;
    ValueOfParts(q);
    if q.fraction.None? {
      PowerOfNone();
    } else {
      MixedQuotient(Value(NumberText(q)), Natural(q.whole), Natural(q.fraction.value), Pow(10, Decimals(q)));
    }
  }

  lemma PowerOfNone()
    ensures Pow(10, 0) == 1
  {
  }

  lemma MixedQuotient(value: real, n: nat, d: nat, p: nat)
    requires p > 0 && value == n as real + d as real / p as real
    ensures value * p as real == (n * p + d) as real
  {
    ProductIsReal(n, p);
    var part := d as real / p as real;
    assert part * p as real == d as real;
    Distributed(n as real, part, p as real);
  }

  lemma Distributed(a: real, b: real, p: real)
    ensures (a + b) * p == a * p + b * p
  {
  }

  lemma Rearranged(value: real, factor: real, p: real, digits: real)
    requires value * p == digits
    ensures value * factor * p == digits * factor
  {
  }

  /** `_size_bytes` of a written amount. */
  lemma SizeIsExact(q: Amounts)
    requires Proper(q)
    ensures Number(NumberText(q)) && Size(NumberText(q), UnitText(q)) == BytesOf(q)
  {
    hide Number, Value, NumberText, UnitText, DecimalDigits, Decimals, Pow, Factor, Multiplier, Scaled, Quotient;
    ValueIsQuotient(q);
    FactorIsMultiplier(q);
    if Factor(q).Some? {
      ScaledIsExact(Value(NumberText(q)), DecimalDigits(q), Pow(10, Decimals(q)), Factor(q).value);
    }
  }

  lemma ScaledIsExact(value: real, digits: nat, p: nat, factor: nat)
    requires p > 0 && value * p as real == digits as real
    ensures Quotient(digits, p, factor) == Scaled(value, factor)
  {
    hide Rounded, Divided;
    ProductIsReal(digits, factor);
    Rearranged(value, factor as real, p as real, digits as real);
    RoundedIsExact(value * factor as real, digits * factor, p);
  }

  lemma RoundedIsExact(size: real, all: nat, p: nat)
    requires p > 0 && size * p as real == all as real
    ensures Rounded(size) == Divided(all, p)
  {
    hide Fits, Part, Pow2;
    FitsIsSmall(size, all, p);
    PartIsFloor(size, all, p);
  }

  // ---- how records are composed ----

  /** Every word behind its gap, then the tail. */
  function Composed(gaps: seq<Bytes>, words: seq<Bytes>, tail: Bytes): Bytes
    requires |gaps| == |words|
    decreases |words|
  {
    if words == [] then tail else gaps[0] + words[0] + Composed(gaps[1..], words[1..], tail)
  }

  /** Only spaces between words, and some between any two. */
  predicate Gaps(gaps: seq<Bytes>) {
    forall k :: 0 <= k < |gaps| ==> AllSpace(gaps[k]) && (k > 0 ==> gaps[k] != [])
  }

  predicate IsWord(w: Bytes) {
    w != [] && NoSpace(w)
  }

  predicate Ends(tail: Bytes) {
    tail == [] || Space(tail[0])
  }

  lemma {:induction false} WordsOfComposed(gaps: seq<Bytes>, words: seq<Bytes>, tail: Bytes)
    requires |gaps| == |words| && Gaps(gaps) && Ends(tail) && forall k :: 0 <= k < |words| ==> IsWord(words[k])
    ensures Words(Composed(gaps, words, tail)) == words + Words(tail)
    ensures After(Composed(gaps, words, tail), |words|) == tail
    ensures words != [] && gaps[0] != [] ==> Ends(Composed(gaps, words, tail))
    decreases |words|
  {
    hide Words, AllSpace, NoSpace, After;
    if words == [] {
      NothingComposed(tail);
    } else {
      WordsOfComposed(gaps[1..], words[1..], tail);
      OneMoreWord(gaps[0], words[0], Composed(gaps[1..], words[1..], tail), |words| - 1);
      assert words == [words[0]] + words[1..];
    }
  }

  lemma NothingComposed(tail: Bytes)
    ensures After(tail, 0) == tail && [] + Words(tail) == Words(tail)
  {
  }

  lemma OneMoreWord(gap: Bytes, w: Bytes, s: Bytes, n: nat)
    requires AllSpace(gap) && IsWord(w) && Ends(s)
    ensures Words(gap + w + s) == [w] + Words(s) && After(gap + w + s, n + 1) == After(s, n)
    ensures gap != [] ==> Ends(gap + w + s)
  {
    hide Words, After;
    FirstWord(gap, w, s);
  }

  lemma {:induction false} LeadingSpaces(s: Bytes) returns (gap: Bytes)
    ensures AllSpace(gap) && s == gap + SkipSpace(s) && (s != [] && Space(s[0]) ==> gap != [])
  {
    if s != [] && Space(s[0]) {
      var rest := LeadingSpaces(s[1..]);
      gap := [s[0]] + rest;
    } else {
      gap := [];
    }
  }

  /** Every record is composed of its words. */
  lemma {:induction false} Decompose(s: Bytes, n: nat) returns (gaps: seq<Bytes>)
    requires n <= |Words(s)|
    ensures |gaps| == n && Gaps(gaps) && (n > 0 && s != [] && Space(s[0]) ==> gaps[0] != [])
    ensures forall k :: 0 <= k < n ==> IsWord(Words(s)[k])
    ensures s == Composed(gaps, Words(s)[..n], After(s, n))
    ensures n > 0 ==> Ends(After(s, n))
    ensures Words(s) == Words(s)[..n] + Words(After(s, n))
    decreases n
  {
    hide AllSpace, NoSpace, SkipSpace, Word, Words, After;
    if n == 0 {
      gaps := [];
      NothingComposed(s);
    } else {
      var gap, w, rest := NextWord(s, n - 1);
      var more := Decompose(rest, n - 1);
      gaps := [gap] + more;
      assert Words(s)[..n] == [w] + Words(rest)[..n - 1];
      assert gaps[1..] == more && Words(s)[..n][1..] == Words(rest)[..n - 1];
    }
  }

  lemma NextWord(s: Bytes, n: nat) returns (gap: Bytes, w: Bytes, rest: Bytes)
    requires Words(s) != []
    ensures s == gap + w + rest && AllSpace(gap) && IsWord(w) && Ends(rest)
    ensures s != [] && Space(s[0]) ==> gap != []
    ensures Words(s) == [w] + Words(rest) && After(s, n + 1) == After(rest, n)
    ensures Words(rest) != [] ==> rest != []
  {
    hide AllSpace, NoSpace, SkipSpace, Word;
    gap := LeadingSpaces(s);
    var r := SkipSpace(s);
    w, rest := Word(r), r[|Word(r)|..];
    assert r == w + rest;
    NoWords();
  }

  // ---- frames ----

  /** A frame as Borg writes it; the tail is the path. */
  datatype FrameText = FrameText(original: Amounts, compressed: Amounts, deduplicated: Amounts, files: Bytes,
                                 gaps: seq<Bytes>, tail: Bytes)

  predicate WellFormed(f: FrameText) {
    && Proper(f.original) && Proper(f.compressed) && Proper(f.deduplicated) && Digits(f.files)
    && |f.gaps| == 11 && Gaps(f.gaps) && Ends(f.tail)
  }

  function FrameItems(f: FrameText): seq<Bytes> {
    [NumberText(f.original), UnitText(f.original), [79],
     NumberText(f.compressed), UnitText(f.compressed), [67],
     NumberText(f.deduplicated), UnitText(f.deduplicated), [68],
     f.files, [78]]
  }

  function FrameBytes(f: FrameText): Bytes
    requires |f.gaps| == 11
  {
    Composed(f.gaps, FrameItems(f), f.tail)
  }

  /** What a frame reports, if its numbers can be converted. */
  function ReportOf(text: Bytes -> string, f: FrameText): Option<Progress> {
    match (BytesOf(f.original), BytesOf(f.compressed), BytesOf(f.deduplicated))
    case (Some(original), Some(compressed), Some(deduplicated)) =>
      if |f.files| > MAX_DIGITS then None
      else Some(Progress(original, compressed, deduplicated, Natural(f.files), text(f.tail)))
    case _ => None
  }

  lemma AmountIsWords(q: Amounts)
    requires Proper(q)
    ensures IsWord(NumberText(q)) && IsWord(UnitText(q)) && Number(NumberText(q)) && Unit(UnitText(q))
  {
    hide NoSpace, Number, NumberText, UnitText;
    NumberParts(q);
    NumberIsNumeric(NumberText(q));
    TextIsUnit(q);
  }

  lemma DigitsAreWord(s: Bytes)
    requires Digits(s)
    ensures IsWord(s)
  {
  }

  lemma ItemsAreWords(f: FrameText)
    requires WellFormed(f)
    ensures forall k :: 0 <= k < 11 ==> IsWord(FrameItems(f)[k])
    ensures forall ws: seq<Bytes> :: |ws| >= 11 && ws[..11] == FrameItems(f) ==> FrameWords(ws)
  {
    hide NumberText, UnitText, Number, Unit, Digits, Gaps;
    AmountIsWords(f.original);
    AmountIsWords(f.compressed);
    AmountIsWords(f.deduplicated);
    DigitsAreWord(f.files);
    forall ws: seq<Bytes> | |ws| >= 11 && ws[..11] == FrameItems(f) ensures FrameWords(ws) {
      assert forall k :: 0 <= k < 11 ==> ws[k] == ws[..11][k];
    }
  }

  /** A written frame parses to what it reports. */
  lemma FrameParses(text: Bytes -> string, f: FrameText)
    requires WellFormed(f)
    ensures Parse(text, FrameBytes(f)) == ReportOf(text, f)
  {
    hide NumberText, UnitText, Size, BytesOf, FrameWords, Composed, Words, After, Natural;
    ItemsAreWords(f);
    WordsOfComposed(f.gaps, FrameItems(f), f.tail);
    var ws := Words(FrameBytes(f));
    assert ws[..11] == FrameItems(f);
    assert forall k :: 0 <= k < 11 ==> ws[k] == FrameItems(f)[k];
    SizeIsExact(f.original);
    SizeIsExact(f.compressed);
    SizeIsExact(f.deduplicated);
  }

  lemma AmountAt(ws: seq<Bytes>, k: nat, letter: Byte) returns (q: Amounts)
    requires Amount(ws, k, letter)
    ensures Proper(q) && NumberText(q) == ws[k] && UnitText(q) == ws[k + 1]
  {
    hide Number, Unit, NumberText, UnitText;
    var n := NumberIsText(ws[k]);
    var u := UnitOf(ws[k + 1]);
    q := n.(scale := u.scale, binary := u.binary);
    SameText(n, u, q);
  }

  lemma SameText(n: Amounts, u: Amounts, q: Amounts)
    requires q == n.(scale := u.scale, binary := u.binary)
    ensures NumberText(q) == NumberText(n) && UnitText(q) == UnitText(u)
  {
  }

  /** A record with the words of a frame is one. */
  lemma FrameWithWords(record: Bytes) returns (f: FrameText)
    requires FrameWords(Words(record))
    ensures WellFormed(f) && FrameBytes(f) == record
  {
    hide NumberText, UnitText, Composed, Words, After, Digits, Number, Unit, Gaps;
    var ws := Words(record);
    var o := AmountAt(ws, 0, O);
    var c := AmountAt(ws, 3, C);
    var d := AmountAt(ws, 6, D);
    var gaps := Decompose(record, 11);
    f := FrameText(o, c, d, ws[9], gaps, After(record, 11));
    assert FrameItems(f) == ws[..11];
  }

  predicate Writes(f: FrameText, record: Bytes) {
    WellFormed(f) && FrameBytes(f) == record
  }

  /** Exactly the written frames parse, each to what it reports. */
  lemma ParseExactly(text: Bytes -> string, record: Bytes, p: Progress)
    ensures Parse(text, record) == Some(p) <==> exists f :: Writes(f, record) && ReportOf(text, f) == Some(p)
  {
    hide Writes, ReportOf, Words, After, FrameWords, ParseWords;
    if Parse(text, record) == Some(p) {
      var f := ParsedIsWritten(text, record);
      assert Writes(f, record) && ReportOf(text, f) == Some(p);
    }
    forall f | Writes(f, record) ensures Parse(text, record) == ReportOf(text, f) {
      WrittenParses(text, record, f);
    }
  }

  lemma ParsedIsWritten(text: Bytes -> string, record: Bytes) returns (f: FrameText)
    requires Parse(text, record).Some?
    ensures Writes(f, record) && ReportOf(text, f) == Parse(text, record)
  {
    hide WellFormed, FrameBytes, ReportOf, Words, After, FrameWords;
    f := FrameWithWords(record);
    FrameParses(text, f);
  }

  lemma WrittenParses(text: Bytes -> string, record: Bytes, f: FrameText)
    requires Writes(f, record)
    ensures Parse(text, record) == ReportOf(text, f)
  {
    FrameParses(text, f);
  }

  // ---- what the filter does with records ----

  /** " O " and the other markers. */
  predicate Marked(record: Bytes, letter: Byte) {
    exists i :: 0 <= i < |record| - 2 && record[i] == 32 && record[i + 1] == letter && record[i + 2] == 32
  }

  predicate MarkedEnd(record: Bytes) {
    exists i :: 0 <= i < |record| - 1 && record[i] == 32 && record[i + 1] == 78
  }

  lemma MarkedIsContained(record: Bytes, letter: Byte)
    ensures Contains(record, [32, letter, 32]) <==> Marked(record, letter)
  {
    var mark := [32, letter, 32];
    var i := Find(record, mark, 0);
    if i >= 0 {
      assert record[i] == record[i..i + 3][0] && record[i + 1] == record[i..i + 3][1];
      assert record[i + 2] == record[i..i + 3][2];
    }
    forall j | 0 <= j < |record| - 2 && record[j] == 32 && record[j + 1] == letter && record[j + 2] == 32
      ensures OccursAt(record, mark, j)
    {
    }
  }

  lemma MarkedEndIsContained(record: Bytes)
    ensures Contains(record, [32, 78]) <==> MarkedEnd(record)
  {
    var mark := [32, 78];
    var i := Find(record, mark, 0);
    if i >= 0 {
      assert record[i] == record[i..i + 2][0] && record[i + 1] == record[i..i + 2][1];
    }
    forall j | 0 <= j < |record| - 1 && record[j] == 32 && record[j + 1] == 78
      ensures OccursAt(record, mark, j)
    {
    }
  }

  /** What the filter takes for a complete frame: written like one and with its letters between
      single spaces. */
  ghost predicate Complete(text: Bytes -> string, record: Bytes) {
    && Marked(record, 79) && Marked(record, 67) && Marked(record, 68) && MarkedEnd(record)
    && exists f :: Writes(f, record) && ReportOf(text, f).Some?
  }

  lemma FrameExactly(text: Bytes -> string, record: Bytes)
    ensures Frame(BorgPatterns(text), record) <==> Complete(text, record)
  {
    hide Contains, Marked, MarkedEnd, Writes, ReportOf, Parse;
    MarkedIsContained(record, 79);
    MarkedIsContained(record, 67);
    MarkedIsContained(record, 68);
    MarkedEndIsContained(record);
    if Parse(text, record).Some? {
      ParseExactly(text, record, Parse(text, record).value);
    }
    forall f | Writes(f, record) && ReportOf(text, f).Some? ensures Parse(text, record).Some? {
      ParseExactly(text, record, ReportOf(text, f).value);
    }
  }

  /** A number and a unit, then nothing, or spaces and the letter O as a word. */
  ghost predicate Begins(t: Bytes) {
    exists q, gaps, tail :: BeginsWith(t, q, gaps, tail)
  }

  predicate BeginsWith(t: Bytes, q: Amounts, gaps: seq<Bytes>, tail: Bytes) {
    && Proper(q) && Gaps(gaps) && Ends(tail)
    && (|| (|gaps| == 2 && tail == [] && t == Composed(gaps, [NumberText(q), UnitText(q)], []))
        || (|gaps| == 3 && t == Composed(gaps, [NumberText(q), UnitText(q), [79]], tail)))
  }

  /** What is kept back at the end of a chunk as the possible beginning of a frame. */
  ghost predicate HeldBack(t: Bytes) {
    0 < |t| <= 16384 && (Marked(t, 79) || Begins(t))
  }

  lemma {:induction false} ComposedEnd(gaps: seq<Bytes>, words: seq<Bytes>)
    requires |gaps| == |words| > 0 && forall k :: 0 <= k < |words| ==> IsWord(words[k])
    ensures var s := Composed(gaps, words, []); s != [] && !Space(s[|s| - 1])
    decreases |words|
  {
    var w := words[0];
    assert !Space(w[|w| - 1]);
    if |words| == 1 {
      assert Composed(gaps, words, []) == gaps[0] + w;
    } else {
      ComposedEnd(gaps[1..], words[1..]);
    }
  }

  lemma BeginningMatches(t: Bytes, q: Amounts, gaps: seq<Bytes>, tail: Bytes)
    requires BeginsWith(t, q, gaps, tail)
    ensures PrefixMatch(t)
  {
    hide NumberText, UnitText, Number, Unit, Words, Composed, After;
    AmountIsWords(q);
    DigitsLetter();
    if |gaps| == 2 {
      var words := [NumberText(q), UnitText(q)];
      WordsOfComposed(gaps, words, []);
      ComposedEnd(gaps, words);
      NoWords();
      assert Words(t) == words;
    } else {
      var words := [NumberText(q), UnitText(q), [79]];
      WordsOfComposed(gaps, words, tail);
      assert forall k :: 0 <= k < 3 ==> Words(t)[k] == words[k];
    }
  }

  lemma NoWords()
    ensures Words([]) == []
  {
  }

  lemma DigitsLetter()
    ensures IsWord([79])
  {
  }

  lemma {:induction false} WordlessIsSpace(s: Bytes)
    requires Words(s) == []
    ensures AllSpace(s)
  {
    var gap := LeadingSpaces(s);
    assert SkipSpace(s) == [];
    assert s == gap;
  }

  lemma MatchBegins(t: Bytes)
    requires PrefixMatch(t)
    ensures Begins(t)
  {
    hide NumberText, UnitText, Number, Unit, Composed;
    var ws := Words(t);
    var n := NumberIsText(ws[0]);
    var u := UnitOf(ws[1]);
    var q := n.(scale := u.scale, binary := u.binary);
    SameText(n, u, q);
    if |ws| == 2 {
      var gaps := Decompose(t, 2);
      assert ws[..2] == [NumberText(q), UnitText(q)];
      NothingAfter(t);
      assert BeginsWith(t, q, gaps, []);
    } else {
      var gaps := Decompose(t, 3);
      assert ws[..3] == [NumberText(q), UnitText(q), [79]];
      assert BeginsWith(t, q, gaps, After(t, 3));
    }
  }

  /** Without trailing spaces nothing follows the last word. */
  lemma NothingAfter(t: Bytes)
    requires |Words(t)| == 2 && t != [] && !Space(t[|t| - 1])
    ensures After(t, 2) == []
  {
    hide Words, After;
    var gaps := Decompose(t, 2);
    var tail := After(t, 2);
    assert Words(tail) == [] by {
      assert |Words(t)| == |Words(t)[..2]| + |Words(tail)|;
    }
    WordlessIsSpace(tail);
    ComposedTail(gaps, Words(t)[..2], tail);
  }

  lemma {:induction false} ComposedTail(gaps: seq<Bytes>, words: seq<Bytes>, tail: Bytes)
    requires |gaps| == |words|
    ensures var s := Composed(gaps, words, tail);
      |tail| <= |s| && (tail != [] ==> s[|s| - 1] == tail[|tail| - 1])
    decreases |words|
  {
    if words != [] {
      ComposedTail(gaps[1..], words[1..], tail);
    }
  }

  lemma PlausibleExactly(text: Bytes -> string, t: Bytes)
    ensures Plausible(BorgPatterns(text), t) <==> HeldBack(t)
  {
    hide Contains, Marked, Begins, PrefixMatch;
    MarkedIsContained(t, 79);
    if PrefixMatch(t) {
      MatchBegins(t);
    }
    BeginsMatches(t);
  }

  lemma BeginsMatches(t: Bytes)
    ensures Begins(t) ==> PrefixMatch(t)
  {
    hide PrefixMatch, BeginsWith;
    if Begins(t) {
      var q, gaps, tail :| BeginsWith(t, q, gaps, tail);
      BeginningMatches(t, q, gaps, tail);
    }
  }

  /** Of bytes without a line end, exactly the possible beginnings of a frame are held back;
      all others are passed through at once. */
  lemma HeldBackExactly(text: Bytes -> string, t: Bytes)
    requires FirstBreak(t, 0) < 0
    ensures var pat := BorgPatterns(text);
      if HeldBack(t) then FeedOutput(pat, t) == [] && FeedCarry(pat, t) == t
      else FeedOutput(pat, t) == t && FeedCarry(pat, t) == []
  {
    hide Frame, Plausible, HeldBack;
    PlausibleExactly(text, t);
    assert Body(t) == [] && Tail(t) == t;
    assert KeepAll(BorgPatterns(text), []) == [];
    assert [] + t == t;
  }

  lemma ReportedExactly(text: Bytes -> string, r: Bytes)
    requires FirstBreak(r, 0) < 0
    ensures Complete(text, r) ==>
      forall f :: Writes(f, r) ==> Newest(BorgPatterns(text), Body(r + [LF])) == ReportOf(text, f)
    ensures !Complete(text, r) ==> Newest(BorgPatterns(text), Body(r + [LF])) == None
  {
    hide Frame, Complete, Writes, ReportOf, Parse, FirstBreak, Newest;
    FrameExactly(text, r);
    NewestOfRecord(BorgPatterns(text), r);
    forall f | Writes(f, r) ensures Parse(text, r) == ReportOf(text, f) {
      WrittenParses(text, r, f);
    }
  }

  lemma NewestOfRecord(pat: Patterns, r: Bytes)
    requires FirstBreak(r, 0) < 0
    ensures Newest(pat, Body(r + [LF])) == if Frame(pat, r) then pat.parse(r) else None
  {
    hide Frame, FirstBreak;
    var s := r + [LF];
    FirstBreakIs(s, |r|);
    assert FirstEnd(s) == |s| && s[..|s|] == s && s[|s|..] == [];
    assert Body(s) == [s];
    RecordStripped(r);
  }

  lemma RecordStripped(r: Bytes)
    requires FirstBreak(r, 0) < 0
    ensures RStrip(r + [LF]) == r
  {
    hide FirstBreak;
    assert (r + [LF])[..|r|] == r;
  }

  /** A record is removed exactly if it is a complete frame, and then what it says is reported. */
  lemma RecordRemovedExactly(text: Bytes -> string, r: Bytes)
    requires FirstBreak(r, 0) < 0
    ensures Output(BorgPatterns(text), [], [r + [LF]]) == if Complete(text, r) then [] else r + [LF]
    ensures Complete(text, r) ==>
      forall f :: Writes(f, r) ==> Newest(BorgPatterns(text), Body(r + [LF])) == ReportOf(text, f)
    ensures !Complete(text, r) ==> Newest(BorgPatterns(text), Body(r + [LF])) == None
  {
    hide *;
    ReportedExactly(text, r);
    FrameExactly(text, r);
    OneFeed(BorgPatterns(text), [], r + [LF]);
    LfRecord(BorgPatterns(text), r);
    assert [] + (r + [LF]) == r + [LF];
  }

  /** A frame of any shape, cut anywhere: it disappears completely if and only if what stands
      before the cut is held back. */
  lemma CutFrameExactly(text: Bytes -> string, t: Bytes, rest: Bytes)
    requires t != [] && FirstBreak(t + rest, 0) < 0 && Complete(text, t + rest)
    ensures Output(BorgPatterns(text), [], [t, rest + [LF]]) == [] <==> HeldBack(t)
  {
    hide *;
    FrameExactly(text, t + rest);
    PlausibleExactly(text, t);
    FrameCutExactly(BorgPatterns(text), t, rest);
  }
}
