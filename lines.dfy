/** The document behind a line array, read as one string. A line array `L`
    stands for the text whose lines are the elements of `L`; `Flat(L)` writes
    every line followed by its line break, so it is that text with one extra
    "\n" at the end. A position addresses the character offset `Offset(L, p)`
    of that string; the editing operations of the buffer are described
    against these offsets. */
module Lines {
  import opened Utils

  predicate NoNewline(s: string) {
    '\n' !in s
  }

  /** The buffer invariant: at least one line, and no line holds a break. */
  predicate ValidLines(L: seq<string>) {
    |L| >= 1 && forall i :: 0 <= i < |L| ==> NoNewline(L[i])
  }

  /** `p` names an existing row and a column at most that row's length. */
  predicate InBounds(L: seq<string>, p: Position) {
    p.row < |L| && p.col <= |L[p.row]|
  }

  /** Every line followed by its line break. */
  function Flat(L: seq<string>): string {
    if L == [] then "" else Flat(L[..|L| - 1]) + L[|L| - 1] + "\n"
  }

  /** Character offset of position `p` in `Flat(L)`. */
  function Offset(L: seq<string>, p: Position): nat
    requires p.row < |L|
  {
    |Flat(L[..p.row])| + p.col
  }

  /** Offset of the end of the last line, the largest valid offset. */
  function LastOffset(L: seq<string>): nat
    requires |L| >= 1
  {
    |Flat(L)| - 1
  }

  lemma {:induction false} FlatAppend(A: seq<string>, B: seq<string>)
    ensures Flat(A + B) == Flat(A) + Flat(B)
    decreases |B|
  {
    if B == [] {
      assert A + B == A;
    } else {
      var B' := B[..|B| - 1];
      assert (A + B)[..|A + B| - 1] == A + B';
      FlatAppend(A, B');
    }
  }

  lemma FlatThree(A: seq<string>, M: seq<string>, B: seq<string>)
    ensures Flat(A + M + B) == Flat(A) + Flat(M) + Flat(B)
  {
    FlatAppend(A + M, B);
    FlatAppend(A, M);
  }

  /** The first line, its break, then the rest. */
  lemma {:induction false} FlatCons(L: seq<string>)
    requires |L| >= 1
    ensures Flat(L) == L[0] + "\n" + Flat(L[1..])
  {
    var head := [L[0]];
    assert head[..0] == [];
    assert Flat(head) == L[0] + "\n";
    assert L == head + L[1..];
    FlatAppend(head, L[1..]);
  }

  lemma {:induction false} FlatLength(L: seq<string>)
    ensures |Flat(L)| >= |L|
  {
    if L != [] {
      FlatLength(L[..|L| - 1]);
    }
  }

  /** Row r+1 starts one break after the end of row r. */
  lemma {:induction false} NextRowStart(L: seq<string>, r: nat)
    requires r < |L|
    ensures |Flat(L[..r + 1])| == |Flat(L[..r])| + |L[r]| + 1
  {
    assert L[..r + 1][..r] == L[..r];
  }

  /** `Flat(L)` cut at position `p`: what comes before is the earlier rows and
      the head of row `p.row`, what follows is the tail of that row, its break
      and the later rows. */
  lemma {:induction false} FlatAt(L: seq<string>, p: Position)
    requires InBounds(L, p)
    ensures Offset(L, p) < |Flat(L)|
    ensures Flat(L)[..Offset(L, p)] == Flat(L[..p.row]) + L[p.row][..p.col]
    ensures Flat(L)[Offset(L, p)..] == L[p.row][p.col..] + "\n" + Flat(L[p.row + 1..])
  {
    var r, c := p.row, p.col;
    var rest := L[r..];
    assert L == L[..r] + rest;
    FlatAppend(L[..r], rest);
    FlatCons(rest);
    assert rest[1..] == L[r + 1..];
    var X := Flat(L[..r]) + L[r][..c];
    var Y := L[r][c..] + "\n" + Flat(L[r + 1..]);
    assert L[r] == L[r][..c] + L[r][c..];
    assert Flat(L) == X + Y;
    assert |X| == Offset(L, p);
  }

  /** The character at the end of a row that is not the last is its break. */
  lemma {:induction false} BreakAfterRow(L: seq<string>, r: nat)
    requires r + 1 < |L|
    ensures Offset(L, Position(r, |L[r]|)) < |Flat(L)|
    ensures Flat(L)[Offset(L, Position(r, |L[r]|))] == '\n'
    ensures Offset(L, Position(r + 1, 0)) == Offset(L, Position(r, |L[r]|)) + 1
  {
    FlatAt(L, Position(r, |L[r]|));
    NextRowStart(L, r);
  }

  lemma {:induction false} RowStartMonotone(L: seq<string>, r1: nat, r2: nat)
    requires r1 <= r2 <= |L|
    ensures |Flat(L[..r1])| + (r2 - r1) <= |Flat(L[..r2])|
  {
    assert L[..r2] == L[..r1] + L[r1..r2];
    FlatAppend(L[..r1], L[r1..r2]);
    FlatLength(L[r1..r2]);
  }

  /** Reading order and offset order agree on positions inside the buffer. */
  lemma {:induction false} OffsetOrder(L: seq<string>, p: Position, q: Position)
    requires InBounds(L, p) && InBounds(L, q)
    ensures Before(p, q) <==> Offset(L, p) < Offset(L, q)
    ensures p == q <==> Offset(L, p) == Offset(L, q)
  {
    if p.row < q.row {
      NextRowStart(L, p.row);
      RowStartMonotone(L, p.row + 1, q.row);
    } else if q.row < p.row {
      NextRowStart(L, q.row);
      RowStartMonotone(L, q.row + 1, p.row);
    }
  }

  /** So the comparison of utils.ts is the comparison of offsets. */
  lemma {:induction false} CompareIsOffsetCompare(L: seq<string>, p: Position, q: Position)
    requires InBounds(L, p) && InBounds(L, q)
    ensures ComparePositions(p, q) == (if Offset(L, p) < Offset(L, q) then -1
                                       else if Offset(L, p) == Offset(L, q) then 0 else 1)
  {
    OffsetOrder(L, p, q);
    OffsetOrder(L, q, p);
  }

  /** An in-bounds position is determined by its offset. */
  lemma {:induction false} OffsetInjective(L: seq<string>, p: Position, q: Position)
    requires InBounds(L, p) && InBounds(L, q) && Offset(L, p) == Offset(L, q)
    ensures p == q
  {
    OffsetOrder(L, p, q);
  }

  lemma {:induction false} LastOffsetIsEndOfLastLine(L: seq<string>)
    requires |L| >= 1
    ensures Offset(L, Position(|L| - 1, |L[|L| - 1]|)) == LastOffset(L)
  {
    assert L[..|L|] == L;
    NextRowStart(L, |L| - 1);
  }

  /** Every in-bounds position has an offset of at most LastOffset. */
  lemma {:induction false} OffsetAtMostLast(L: seq<string>, p: Position)
    requires InBounds(L, p)
    ensures Offset(L, p) <= LastOffset(L)
  {
    LastOffsetIsEndOfLastLine(L);
    var e := Position(|L| - 1, |L[|L| - 1]|);
    OffsetOrder(L, p, e);
  }

  /** In the flat text the first break ends the first line. */
  lemma {:induction false} FirstLine(L: seq<string>)
    requires |L| >= 1 && NoNewline(L[0])
    ensures |L[0]| < |Flat(L)| && Flat(L)[|L[0]|] == '\n'
    ensures Flat(L)[..|L[0]|] == L[0]
    ensures Flat(L)[|L[0]| + 1..] == Flat(L[1..])
    ensures forall i :: 0 <= i < |L[0]| ==> Flat(L)[i] != '\n'
  {
    FlatCons(L);
    forall i | 0 <= i < |L[0]|
      ensures Flat(L)[i] != '\n'
    {
      assert Flat(L)[i] == L[0][i];
      assert L[0][i] in L[0];
    }
  }

  /** Line arrays without breaks inside lines are determined by their flat text. */
  lemma {:induction false} FlatInjective(A: seq<string>, B: seq<string>)
    requires forall i :: 0 <= i < |A| ==> NoNewline(A[i])
    requires forall i :: 0 <= i < |B| ==> NoNewline(B[i])
    requires Flat(A) == Flat(B)
    ensures A == B
    decreases |A|
  {
    if A == [] || B == [] {
      FlatLength(A);
      FlatLength(B);
    } else {
      FirstLine(A);
      FirstLine(B);
      var a, b := A[0], B[0];
      assert Flat(B)[|a|] == '\n';
      assert Flat(A)[|b|] == '\n';
      assert |a| == |b|;
      assert a == b;
      FlatInjective(A[1..], B[1..]);
      assert A == [a] + A[1..] && B == [b] + B[1..];
    }
  }

  /** The offset of a position below the first row, counted from the second row. */
  lemma {:induction false} OffsetCons(L: seq<string>, p: Position)
    requires 1 <= p.row < |L|
    ensures Offset(L, p) == |L[0]| + 1 + Offset(L[1..], Position(p.row - 1, p.col))
  {
    FlatCons(L[..p.row]);
    assert L[..p.row][1..] == L[1..][..p.row - 1];
  }

  /** A position keeps its offset in any buffer whose flat text agrees up to
      (past) that offset: what comes before a position fixes the position. */
  lemma {:induction false} PrefixFixesPosition(L: seq<string>, M: seq<string>, k: nat, p: Position)
    requires ValidLines(L) && ValidLines(M)
    requires k < |Flat(L)| && k < |Flat(M)| && Flat(L)[..k] == Flat(M)[..k]
    requires InBounds(L, p) && Offset(L, p) <= k
    ensures InBounds(M, p) && Offset(M, p) == Offset(L, p)
    decreases p.row
  {
    FirstLine(L);
    FirstLine(M);
    var a, b := L[0], M[0];
    forall i | 0 <= i < k
      ensures Flat(L)[i] == Flat(M)[i]
    {
      assert Flat(L)[..k][i] == Flat(M)[..k][i];
    }
    if p.row == 0 {
      assert p.col <= |b|;
    } else {
      OffsetCons(L, p);
      assert |a| < k;
      assert Flat(M)[|a|] == '\n';
      assert |b| <= |a|;
      assert Flat(L)[|b|] == '\n';
      assert |a| == |b|;
      assert a == Flat(L)[..k][..|a|] == Flat(M)[..k][..|b|] == b;
      assert |Flat(M[1..])| >= 1;
      assert |M| >= 2;
      var L1, M1, k1 := L[1..], M[1..], k - |a| - 1;
      var p1 := Position(p.row - 1, p.col);
      assert Flat(L1)[..k1] == Flat(L)[..k][|a| + 1..] == Flat(M)[..k][|b| + 1..] == Flat(M1)[..k1];
      PrefixFixesPosition(L1, M1, k1, p1);
      OffsetCons(M, p);
    }
  }

  /** Row `r` and its break, read off the flat text. */
  lemma {:induction false} RowInFlat(L: seq<string>, r: nat)
    requires r < |L|
    ensures |Flat(L[..r])| < |Flat(L[..r + 1])| <= |Flat(L)|
    ensures Flat(L)[|Flat(L[..r])|..|Flat(L[..r + 1])|] == L[r] + "\n"
  {
    FlatAt(L, Position(r, 0));
    NextRowStart(L, r);
    var F, a, b := Flat(L), |Flat(L[..r])|, |Flat(L[..r + 1])|;
    assert L[r][0..] == L[r];
    SliceBetweenSuffixes(F, a, b, L[r] + "\n", Flat(L[r + 1..]));
  }

  lemma AdjacentSlices(F: string, a: nat, b: nat, c: nat)
    requires a <= b <= c <= |F|
    ensures F[a..b] + F[b..c] == F[a..c]
  {
  }

  /** A slice of `F` read off two of its suffixes. */
  lemma SliceBetweenSuffixes(F: string, i: nat, j: nat, t: string, u: string)
    requires i <= j <= |F| && F[i..] == t + u && F[j..] == u
    ensures F[i..j] == t
  {
    assert F[i..j] == F[i..][..j - i];
  }

  /** Cuts `s` at every line break, as JavaScript's `s.split('\n')` does. */
  function Split(s: string): (pieces: seq<string>)
    ensures |pieces| >= 1
    ensures forall i :: 0 <= i < |pieces| ==> NoNewline(pieces[i])
    ensures Flat(pieces) == s + "\n"
  {
    if s == [] then [""]
    else
      var init := Split(s[..|s| - 1]);
      var c := s[|s| - 1];
      assert s == s[..|s| - 1] + [c];
      if c == '\n' then
        assert (init + [""])[..|init|] == init;
        init + [""]
      else
        var last := init[|init| - 1] + [c];
        var r := init[..|init| - 1] + [last];
        assert r[..|r| - 1] == init[..|init| - 1];
        assert init[..|init| - 1] + [init[|init| - 1]] == init;
        assert Flat(r) == Flat(init[..|init| - 1]) + last + "\n";
        var P := Flat(init[..|init| - 1]) + init[|init| - 1];
        assert Flat(init) == P + "\n" == s[..|s| - 1] + "\n";
        assert P == (P + "\n")[..|P|] == (s[..|s| - 1] + "\n")[..|s| - 1] == s[..|s| - 1];
        assert forall i :: 0 <= i < |r| ==> NoNewline(r[i]);
        r
  }

  /** A string without a break is one piece. */
  lemma {:induction false} SplitNoNewline(s: string)
    requires NoNewline(s)
    ensures Split(s) == [s]
  {
    var P := Split(s);
    assert Flat([s]) == s + "\n";
    FlatInjective(P, [s]);
  }
}
