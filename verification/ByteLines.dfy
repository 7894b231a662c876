/** Bytes, and the line structure of a byte stream, as the stream filters see it.

    `Lines(s)` are the LF-terminated lines of `s` without their terminator and
    `Rest(s)` is what follows the last LF.  `LinesAppend` is the algebraic law
    every chunk-invariance proof of this project rests on: a stream may be cut
    anywhere as long as the unterminated rest is carried over. */
module ByteLines {
  type Byte = x: int | 0 <= x < 256
  type Bytes = seq<Byte>

  const TAB: Byte := 9
  const LF: Byte := 10
  const CR: Byte := 13
  const RS: Byte := 30
  const SPACE: Byte := 32

  /** `s.find(b)` for one byte. */
  function FindByte(s: Bytes, b: Byte): (i: int)
    ensures -1 <= i < |s|
    ensures i >= 0 ==> s[i] == b
    ensures forall k :: 0 <= k < (if i < 0 then |s| else i) ==> s[k] != b
  {
    FindByteFrom(s, b, 0)
  }

  function FindByteFrom(s: Bytes, b: Byte, from: nat): (i: int)
    requires from <= |s|
    ensures i == -1 || from <= i < |s|
    ensures i >= 0 ==> s[i] == b
    ensures forall k :: from <= k < (if i < 0 then |s| else i) ==> s[k] != b
    decreases |s| - from
  {
    if from == |s| then -1 else if s[from] == b then from else FindByteFrom(s, b, from + 1)
  }

  /** `s.rfind(b)` for one byte. */
  function RFindByte(s: Bytes, b: Byte): (i: int)
    ensures -1 <= i < |s|
    ensures i >= 0 ==> s[i] == b
    ensures forall k :: i < k < |s| ==> s[k] != b
  {
    RFindByteBefore(s, b, |s|)
  }

  function RFindByteBefore(s: Bytes, b: Byte, end: nat): (i: int)
    requires end <= |s|
    ensures -1 <= i < end
    ensures i >= 0 ==> s[i] == b
    ensures forall k :: i < k < end ==> s[k] != b
  {
    if end == 0 then -1 else if s[end - 1] == b then end - 1 else RFindByteBefore(s, b, end - 1)
  }

  predicate Prefixes(pat: Bytes, s: Bytes) {
    |pat| <= |s| && s[..|pat|] == pat
  }

  /** `pat` occurs in `s` at index `i`. */
  predicate OccursAt(s: Bytes, pat: Bytes, i: int) {
    0 <= i && i + |pat| <= |s| && s[i..i + |pat|] == pat
  }

  /** `s.find(pat, from)`: the least occurrence at or after `from`. */
  function Find(s: Bytes, pat: Bytes, from: nat): (i: int)
    requires from <= |s|
    ensures i == -1 || (from <= i && i + |pat| <= |s| && OccursAt(s, pat, i))
    ensures forall j :: from <= j && OccursAt(s, pat, j) ==> 0 <= i <= j
    decreases |s| - from
  {
    if OccursAt(s, pat, from) then from
    else if from == |s| then -1
    else Find(s, pat, from + 1)
  }

  lemma Assoc<T>(a: seq<T>, b: seq<T>, c: seq<T>)
    ensures (a + b) + c == a + (b + c)
  {
  }

  function FlatMap<A, B>(f: A -> seq<B>, xs: seq<A>): seq<B> {
    if xs == [] then [] else f(xs[0]) + FlatMap(f, xs[1..])
  }

  lemma FlatMapOne<A, B>(f: A -> seq<B>, x: A)
    ensures FlatMap(f, [x]) == f(x)
  {
    assert FlatMap(f, [x]) == f(x) + FlatMap(f, [x][1..]);
  }

  lemma FlatMapAppend<A, B>(f: A -> seq<B>, a: seq<A>, b: seq<A>)
    ensures FlatMap(f, a + b) == FlatMap(f, a) + FlatMap(f, b)
  {
    if a == [] {
      assert a + b == b;
    } else {
      assert (a + b)[1..] == a[1..] + b;
      FlatMapAppend(f, a[1..], b);
    }
  }

  function Flatten(chunks: seq<Bytes>): Bytes {
    if chunks == [] then [] else chunks[0] + Flatten(chunks[1..])
  }

  lemma FlattenAppend(a: seq<Bytes>, b: seq<Bytes>)
    ensures Flatten(a + b) == Flatten(a) + Flatten(b)
  {
    if a == [] {
      assert a + b == b;
    } else {
      assert (a + b)[1..] == a[1..] + b;
      FlattenAppend(a[1..], b);
    }
  }

  function Lines(s: Bytes): (ls: seq<Bytes>)
    decreases |s|
  {
    var i := FindByte(s, LF);
    if i < 0 then [] else [s[..i]] + Lines(s[i + 1..])
  }

  function Rest(s: Bytes): (r: Bytes)
    ensures LF !in r
    ensures LF !in s ==> r == s
    decreases |s|
  {
    var i := FindByte(s, LF);
    if i < 0 then s else Rest(s[i + 1..])
  }

  /** The lines with their terminator put back. */
  function Unlines(ls: seq<Bytes>): Bytes {
    if ls == [] then [] else ls[0] + [LF] + Unlines(ls[1..])
  }

  lemma FindByteIs(s: Bytes, b: Byte, i: nat)
    requires i < |s| && s[i] == b && forall k :: 0 <= k < i ==> s[k] != b
    ensures FindByte(s, b) == i
  {
  }

  lemma FindByteAppend(a: Bytes, b: Bytes, x: Byte)
    ensures FindByte(a, x) >= 0 ==> FindByte(a + b, x) == FindByte(a, x)
    ensures FindByte(a, x) < 0 && FindByte(b, x) >= 0 ==> FindByte(a + b, x) == |a| + FindByte(b, x)
    ensures FindByte(a, x) < 0 && FindByte(b, x) < 0 ==> FindByte(a + b, x) < 0
  {
    var i, j := FindByte(a, x), FindByte(b, x);
    if i >= 0 {
      FindByteIs(a + b, x, i);
    } else if j >= 0 {
      FindByteIs(a + b, x, |a| + j);
    }
  }

  lemma {:induction false} LinesAppend(a: Bytes, b: Bytes)
    ensures Lines(a + b) == Lines(a) + Lines(Rest(a) + b)
    ensures Rest(a + b) == Rest(Rest(a) + b)
    decreases |a|
  {
    hide FindByteFrom, FindByte;
    var i := FindByte(a, LF);
    if i < 0 {
      assert [] + Lines(a + b) == Lines(a + b);
    } else {
      FindByteAppend(a, b, LF);
      SliceAppend(a, b, i);
      LinesAppend(a[i + 1..], b);
      Assoc([a[..i]], Lines(a[i + 1..]), Lines(Rest(a[i + 1..]) + b));
    }
  }

  lemma SliceAppend(a: Bytes, b: Bytes, i: nat)
    requires i < |a|
    ensures (a + b)[..i] == a[..i] && (a + b)[i + 1..] == a[i + 1..] + b
  {
  }

  lemma {:induction false} UnlinesLines(s: Bytes)
    ensures s == Unlines(Lines(s)) + Rest(s)
    decreases |s|
  {
    hide FindByteFrom;
    var i := FindByte(s, LF);
    if i >= 0 {
      UnlinesLines(s[i + 1..]);
      UnlinesStep(s, i, Unlines(Lines(s[i + 1..])), Rest(s[i + 1..]));
    }
  }

  lemma UnlinesStep(s: Bytes, i: nat, x: Bytes, y: Bytes)
    requires i < |s| && s[i] == LF && s[i + 1..] == x + y
    ensures s == s[..i] + [LF] + x + y
  {
  }

  lemma RestAfterLf(s: Bytes)
    requires s != [] && s[|s| - 1] == LF
    ensures Rest(s) == []
  {
    var x := s[..|s| - 1];
    assert s == x + [LF];
    LinesAppend(x, [LF]);
    FindByteAppend(Rest(x), [LF], LF);
    assert (Rest(x) + [LF])[|Rest(x)| + 1..] == [];
  }

  lemma SplitAfterLf(a: Bytes, b: Bytes)
    requires a == [] || a[|a| - 1] == LF
    requires LF !in b
    ensures Rest(a) == [] && Lines(a + b) == Lines(a) && Rest(a + b) == b
  {
    if a != [] {
      RestAfterLf(a);
    }
    LinesAppend(a, b);
    assert [] + b == b;
    assert Lines(b) == [];
  }

  lemma NoLfFrom(s: Bytes, n: nat)
    requires n <= |s| && forall k :: n <= k < |s| ==> s[k] != LF
    ensures LF !in s[n..]
  {
  }

  /** Reading up to the last LF, as `rfind` does, is reading all complete lines. */
  lemma SplitAtLastLf(s: Bytes)
    ensures Rest(s) == s[RFindByte(s, LF) + 1..]
    ensures Lines(s[..RFindByte(s, LF) + 1]) == Lines(s)
    ensures Rest(s[..RFindByte(s, LF) + 1]) == []
    ensures RFindByte(s, LF) < 0 ==> Lines(s) == []
  {
    hide FindByteFrom, RFindByteBefore, Rest;
    var n := RFindByte(s, LF) + 1;
    NoLfFrom(s, n);
    assert s == s[..n] + s[n..];
    SplitAfterLf(s[..n], s[n..]);
    assert FindByte([], LF) < 0;
  }

  // ---- line ends ----

  predicate Break(b: Byte) {
    b == LF || b == CR
  }

  /** What `bytes.strip` removes, and `\s` in a bytes pattern. */
  predicate Space(b: Byte): (r: bool)
    ensures r <==> b in {9, 10, 11, 12, 13, 32}
  {
    b == SPACE || 9 <= b <= 13
  }

  /** Without the line ends at its end, as `rstrip` removes them. */
  function RStrip(s: Bytes): (r: Bytes)
    ensures |r| <= |s|
  {
    if s != [] && Break(s[|s| - 1]) then RStrip(s[..|s| - 1]) else s
  }

  /** Cutting between CR and LF is the only cut that line ends notice. */
  predicate CutsCrLf(a: Bytes, b: Bytes) {
    a != [] && b != [] && a[|a| - 1] == CR && b[0] == LF
  }
}
