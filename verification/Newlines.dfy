/** Universal newlines: CR LF and a lone CR become LF, as two replacements do it. */
module Newlines {
  import opened ByteLines

  function CrLfToLf(s: Bytes): Bytes {
    if s == [] then []
    else if |s| >= 2 && s[0] == CR && s[1] == LF then [LF] + CrLfToLf(s[2..])
    else [s[0]] + CrLfToLf(s[1..])
  }

  function CrToLf(s: Bytes): Bytes {
    if s == [] then [] else [if s[0] == CR then LF else s[0]] + CrToLf(s[1..])
  }

  function Normalized(s: Bytes): Bytes {
    CrToLf(CrLfToLf(s))
  }

  lemma {:induction false} CrToLfAppend(a: Bytes, b: Bytes)
    ensures CrToLf(a + b) == CrToLf(a) + CrToLf(b)
  {
    if a == [] {
      assert a + b == b;
    } else {
      assert (a + b)[1..] == a[1..] + b;
      CrToLfAppend(a[1..], b);
    }
  }

  lemma {:induction false} CrLfAppend(a: Bytes, b: Bytes)
    requires !CutsCrLf(a, b)
    ensures CrLfToLf(a + b) == CrLfToLf(a) + CrLfToLf(b)
    decreases |a|
  {
    if a == [] {
      assert a + b == b;
    } else if |a| >= 2 && a[0] == CR && a[1] == LF {
      SliceAppend(a, b, 1);
      CrLfAppend(a[2..], b);
      Assoc([LF], CrLfToLf(a[2..]), CrLfToLf(b));
    } else {
      SliceAppend(a, b, 0);
      CrLfAppend(a[1..], b);
      Assoc([a[0]], CrLfToLf(a[1..]), CrLfToLf(b));
    }
  }

  /** In the cut case the LF of the pair comes out once more. */
  lemma {:induction false} CrLfCut(a: Bytes, b: Bytes)
    requires CutsCrLf(a, b)
    ensures Normalized(a + b) == Normalized(a) + Normalized(b[1..])
    ensures Normalized(b) == [LF] + Normalized(b[1..])
    ensures Normalized(a) != [] && Normalized(a)[|Normalized(a)| - 1] == LF
  {
    var x, y := a[..|a| - 1], b[1..];
    assert a == x + [CR] && b == [LF] + y && a + b == x + ([CR, LF] + y);
    CrLfAppend(x, [CR, LF] + y);
    CrLfAppend(x, [CR]);
    assert ([CR, LF] + y)[2..] == y;
    assert CrLfToLf([CR]) == [CR] + CrLfToLf([CR][1..]);
    var u, v := CrLfToLf(x), CrLfToLf(y);
    assert CrLfToLf(a + b) == u + ([LF] + v) && CrLfToLf(a) == u + [CR] && CrLfToLf(b) == [LF] + v;
    CrToLfAppend(u, [LF] + v);
    CrToLfAppend(u, [CR]);
    CrToLfAppend([LF], v);
    assert CrToLf([LF]) == [LF] && CrToLf([CR]) == [LF];
    Assoc(CrToLf(u), [LF], CrToLf(v));
  }

  /** The translation changes exactly the texts that hold a CR. */
  lemma {:induction false} NormalizedIdentity(s: Bytes)
    ensures Normalized(s) == s <==> CR !in s
  {
    if CR in s {
      NoCrLeft(CrLfToLf(s));
    } else {
      CrFree(s);
    }
  }

  lemma {:induction false} NoCrLeft(s: Bytes)
    ensures CR !in CrToLf(s)
  {
    if s != [] {
      NoCrLeft(s[1..]);
    }
  }

  lemma {:induction false} CrFree(s: Bytes)
    requires CR !in s
    ensures CrLfToLf(s) == s && CrToLf(s) == s
  {
    if s != [] {
      CrFree(s[1..]);
    }
  }

  lemma NormalizedAppend(a: Bytes, b: Bytes)
    requires !CutsCrLf(a, b)
    ensures Normalized(a + b) == Normalized(a) + Normalized(b)
  {
    CrLfAppend(a, b);
    CrToLfAppend(CrLfToLf(a), CrLfToLf(b));
  }

  // ---- lengths ----

  lemma {:induction false} LengthKept(s: Bytes)
    ensures |CrToLf(s)| == |s|
  {
    if s != [] {
      LengthKept(s[1..]);
    }
  }

  lemma {:induction false} LengthAtLeastHalf(s: Bytes)
    ensures |CrLfToLf(s)| <= |s| <= 2 * |CrLfToLf(s)|
    decreases |s|
  {
    if s == [] {
    } else if |s| >= 2 && s[0] == CR && s[1] == LF {
      LengthAtLeastHalf(s[2..]);
    } else {
      LengthAtLeastHalf(s[1..]);
    }
  }

  /** The translation shortens a text to no less than half. */
  lemma NormalizedLength(s: Bytes)
    ensures |Normalized(s)| <= |s| <= 2 * |Normalized(s)|
  {
    hide CrLfToLf, CrToLf;
    LengthAtLeastHalf(s);
    LengthKept(CrLfToLf(s));
  }

  /** Joining two texts joins at most one pair. */
  lemma NormalizedJoin(a: Bytes, b: Bytes)
    ensures |Normalized(a)| + |Normalized(b)| - 1 <= |Normalized(a + b)| <= |Normalized(a)| + |Normalized(b)|
  {
    hide CrLfToLf, CrToLf, Normalized;
    if CutsCrLf(a, b) {
      CrLfCut(a, b);
    } else {
      NormalizedAppend(a, b);
    }
  }

  // ---- texts as lines ----

  datatype End = Lf | Cr | CrLf

  datatype Line = Line(text: Bytes, end: End)

  function EndBytes(end: End): Bytes {
    match end
    case Lf => [10]
    case Cr => [13]
    case CrLf => [13, 10]
  }

  predicate NoEnds(s: Bytes) {
    LF !in s && CR !in s
  }

  /** The lines with their own ends, and what is not terminated. */
  function Typed(ls: seq<Line>, last: Bytes): Bytes {
    if ls == [] then last else ls[0].text + EndBytes(ls[0].end) + Typed(ls[1..], last)
  }

  /** A CR is the end of a line only if no LF follows. */
  predicate Unambiguous(ls: seq<Line>, last: Bytes) {
    NoEnds(last) && forall i :: 0 <= i < |ls| ==>
      NoEnds(ls[i].text) && (ls[i].end == Cr && i + 1 < |ls| ==> ls[i + 1].text != [] || ls[i + 1].end != Lf)
  }

  /** The same lines, each ended by LF. */
  function Unified(ls: seq<Line>, last: Bytes): Bytes {
    if ls == [] then last else ls[0].text + [10] + Unified(ls[1..], last)
  }

  /** Universal newlines keep every line and unify the ends. */
  lemma {:induction false} NormalizedLines(ls: seq<Line>, last: Bytes)
    requires Unambiguous(ls, last)
    ensures Normalized(Typed(ls, last)) == Unified(ls, last)
  {
    hide CrLfToLf, CrToLf, Normalized, EndBytes;
    if ls == [] {
      NormalizedIdentity(last);
    } else {
      NormalizedLines(ls[1..], last);
      OneEnd(ls[0].text, ls[0].end);
      var head, rest := ls[0].text + EndBytes(ls[0].end), Typed(ls[1..], last);
      NotCut(ls, last);
      NormalizedAppend(head, rest);
    }
  }

  lemma OneEnd(text: Bytes, end: End)
    requires NoEnds(text)
    ensures Normalized(text + EndBytes(end)) == text + [10]
  {
    hide Normalized;
    NormalizedIdentity(text);
    assert !CutsCrLf(text, EndBytes(end));
    NormalizedAppend(text, EndBytes(end));
    EndNormalized(end);
  }

  lemma EndNormalized(end: End)
    ensures Normalized(EndBytes(end)) == [10]
  {
    var e := EndBytes(end);
    assert e[1..] == [] || (e == [13, 10] && e[2..] == []);
    var u := CrLfToLf(e);
    assert CrLfToLf([]) == [];
    assert |u| == 1 && u[1..] == [] && CrToLf([]) == [];
  }

  lemma NotCut(ls: seq<Line>, last: Bytes)
    requires ls != [] && Unambiguous(ls, last)
    ensures !CutsCrLf(ls[0].text + EndBytes(ls[0].end), Typed(ls[1..], last))
  {
    if |ls| > 1 {
      assert Typed(ls[1..], last)[0] == (ls[1].text + EndBytes(ls[1].end))[0];
    }
  }

  function LineLength(s: Bytes): (n: nat)
    ensures n <= |s| && NoEnds(s[..n]) && (n < |s| ==> Break(s[n]))
  {
    if s == [] || Break(s[0]) then 0
    else
      var n := LineLength(s[1..]);
      assert s[..n + 1] == [s[0]] + s[1..][..n];
      n + 1
  }

  /** Every text is such a sequence of lines. */
  lemma {:induction false} TextIsLines(s: Bytes) returns (ls: seq<Line>, last: Bytes)
    ensures Unambiguous(ls, last) && s == Typed(ls, last)
    decreases |s|
  {
    var i := LineLength(s);
    if i < |s| {
      var end := if s[i] == LF then Lf else if i + 1 < |s| && s[i + 1] == LF then CrLf else Cr;
      var n := i + |EndBytes(end)|;
      var more;
      more, last := TextIsLines(s[n..]);
      ls := [Line(s[..i], end)] + more;
      assert s == s[..i] + EndBytes(end) + s[n..];
      LineInFront(s[..i], end, more, last);
    } else {
      ls, last := [], s;
    }
  }

  lemma LineInFront(text: Bytes, end: End, more: seq<Line>, last: Bytes)
    requires NoEnds(text) && Unambiguous(more, last)
    requires end == Cr ==> Typed(more, last) == [] || Typed(more, last)[0] != LF
    ensures Unambiguous([Line(text, end)] + more, last)
    ensures Typed([Line(text, end)] + more, last) == text + EndBytes(end) + Typed(more, last)
  {
    assert ([Line(text, end)] + more)[1..] == more;
    if more != [] && more[0].text == [] && more[0].end == Lf {
      FirstByte(more, last);
    }
  }

  lemma FirstByte(ls: seq<Line>, last: Bytes)
    requires ls != [] && ls[0].text == [] && ls[0].end == Lf
    ensures Typed(ls, last) != [] && Typed(ls, last)[0] == LF
  {
  }
}
