/**
 `generate_row` (entombed.py:202-235): one new maze row computed left to
 right from the previous row, a rule table and a stream of random bits.
 */
module RowGenerator {
  import opened Rules
  import opened Results

  /**
   The random bits `randombit` would return, one per call: the k-th draw of
   a run is `src(k)`. A cursor says how many have been drawn so far.
   */
  type BitSource = nat -> Bit

  /** A row being built: the cells decided so far and the draw cursor. */
  datatype Gen = Gen(out: seq<Bit>, cursor: nat)

  /**
   The neighbourhood of cell `i`: two cells already decided in `out`, three
   of the previous row `r`; positions outside the row read as 0.
   */
  function NeighbourhoodAt(out: seq<Bit>, r: seq<Bit>, i: nat): Neighbourhood
    requires i < |r| && i <= |out|
  {
    Neighbourhood(
      if i == 0 || i == 1 then 0 else out[i - 2],
      if i == 0 then 0 else out[i - 1],
      if i == 0 then 0 else r[i - 1],
      r[i],
      if i == |r| - 1 then 0 else r[i + 1])
  }

  function IndexAt(out: seq<Bit>, r: seq<Bit>, i: nat): nat
    requires i < |r| && i <= |out|
  {
    Code(NeighbourhoodAt(out, r, i))
  }

  /** Decides the next cell of `g`, drawing a bit for a RandomChoice entry. */
  function Step(lut: Table, r: seq<Bit>, src: BitSource, g: Gen): Result<Gen>
    requires ValidValues(lut) && |g.out| < |r|
  {
    var idx := IndexAt(g.out, r, |g.out|);
    if idx >= |lut| then Err(IndexError(idx))
    else if lut[idx] == RandomChoice then Ok(Gen(g.out + [src(g.cursor)], g.cursor + 1))
    else Ok(Gen(g.out + [lut[idx]], g.cursor))
  }

  /** The first `n` cells of the new row, starting with `cursor` draws made. */
  function RowPrefix(lut: Table, r: seq<Bit>, src: BitSource, cursor: nat, n: nat): (res: Result<Gen>)
    requires ValidValues(lut) && n <= |r|
    ensures res.Ok? ==> |res.value.out| == n && cursor <= res.value.cursor <= cursor + n
    decreases n
  {
    if n == 0 then Ok(Gen([], cursor))
    else match RowPrefix(lut, r, src, cursor, n - 1)
      case Err(e) => Err(e)
      case Ok(g) => Step(lut, r, src, g)
  }

  function NextRow(lut: Table, r: seq<Bit>, src: BitSource, cursor: nat): Result<Gen>
    requires ValidValues(lut)
  {
    RowPrefix(lut, r, src, cursor, |r|)
  }

  // ---------------------------------------------------------------------
  // A cell-by-cell reference definition of a generated row.

  /** Whether cell `i` hits a RandomChoice entry of the table. */
  predicate IsRandomAt(lut: Table, r: seq<Bit>, out: seq<Bit>, i: nat)
    requires i < |r| && i <= |out|
  {
    var idx := IndexAt(out, r, i);
    idx < |lut| && lut[idx] == RandomChoice
  }

  /** How many of the first `n` cells hit a RandomChoice entry. */
  function RandomHits(lut: Table, r: seq<Bit>, out: seq<Bit>, n: nat): nat
    requires n <= |out| <= |r|
  {
    if n == 0 then 0
    else RandomHits(lut, r, out, n - 1) + (if IsRandomAt(lut, r, out, n - 1) then 1 else 0)
  }

  /**
   Cell `i` is the table entry of its neighbourhood, or, for a RandomChoice
   entry, the next unused bit: the one after all draws of earlier cells.
   */
  ghost predicate FollowsRule(lut: Table, r: seq<Bit>, src: BitSource, cursor: nat, out: seq<Bit>, i: nat)
    requires i < |out| <= |r|
  {
    var idx := IndexAt(out, r, i);
    && idx < |lut|
    && out[i] == (if lut[idx] == RandomChoice then src(cursor + RandomHits(lut, r, out, i)) else lut[idx])
  }

  /** `out` is a correctly generated prefix and `next` the cursor after it. */
  ghost predicate Generated(lut: Table, r: seq<Bit>, src: BitSource, cursor: nat, out: seq<Bit>, next: nat)
  {
    && |out| <= |r|
    && (forall i :: 0 <= i < |out| ==> FollowsRule(lut, r, src, cursor, out, i))
    && next == cursor + RandomHits(lut, r, out, |out|)
  }

  // ---------------------------------------------------------------------
  // The buffer-filling loop.

  /**
   `generate_row`: fills a fresh buffer left to right. It returns what
   NextRow describes; a table shorter than 32 entries may fail with the
   IndexError the source raises, and a full table never does.
   */
  method GenerateRow(lut: Table, r: seq<Bit>, src: BitSource, cursor: nat) returns (res: Result<Gen>)
    requires ValidValues(lut)
    ensures res == NextRow(lut, r, src, cursor)
    ensures res.Ok? ==> |res.value.out| == |r| && Generated(lut, r, src, cursor, res.value.out, res.value.cursor)
    ensures |lut| >= 32 ==> res.Ok?
  {
    var out := new Bit[|r|](_ => 0);
    var cur := cursor;
    ghost var done: seq<Bit> := [];
    for i := 0 to |r|
      invariant |done| == i && forall j :: 0 <= j < i ==> out[j] == done[j]
      invariant RowPrefix(lut, r, src, cursor, i) == Ok(Gen(done, cur))
    {
      var idx := CellIndex(out, r, i, done);
      if idx >= |lut| {
        RowFails(lut, r, src, cursor, i, Gen(done, cur), idx);
        return Err(IndexError(idx));
      }
      ghost var before := Gen(done, cur);
      var cell: Bit;
      if lut[idx] == RandomChoice {
        cell := src(cur);
        cur := cur + 1;
      } else {
        cell := lut[idx];
      }
      out[i] := cell;
      done := done + [cell];
      RowPrefixNext(lut, r, src, cursor, i, before, idx, Gen(done, cur));
    }
    assert out[..] == done;
    res := Ok(Gen(out[..], cur));
    RowResult(lut, r, src, cursor);
  }

  /**
   The code of cell `i`'s neighbourhood, read from the cells of the buffer
   decided so far (mirrored by `done`) and from the previous row.
   */
  method CellIndex(out: array<Bit>, r: seq<Bit>, i: nat, ghost done: seq<Bit>) returns (idx: nat)
    requires i < |r| && i <= out.Length && |done| == i
    requires forall j :: 0 <= j < i ==> out[j] == done[j]
    ensures idx == IndexAt(done, r, i) && idx < 32
  {
    var a: Bit := if i == 0 || i == 1 then 0 else out[i - 2];
    var b: Bit := if i == 0 then 0 else out[i - 1];
    var c: Bit := if i == 0 then 0 else r[i - 1];
    var d: Bit := r[i];
    var e: Bit := if i == |r| - 1 then 0 else r[i + 1];
    idx := GetIdx(a, b, c, d, e);
    assert Neighbourhood(a, b, c, d, e) == NeighbourhoodAt(done, r, i);
  }

  /** A cell whose code has no table entry fails the whole row. */
  lemma RowFails(lut: Table, r: seq<Bit>, src: BitSource, cursor: nat, i: nat, g: Gen, idx: nat)
    requires ValidValues(lut) && i < |r| && RowPrefix(lut, r, src, cursor, i) == Ok(g)
    requires idx == IndexAt(g.out, r, i) && idx >= |lut|
    ensures NextRow(lut, r, src, cursor) == Err(IndexError(idx))
  {
    RowPrefixStep(lut, r, src, cursor, i + 1, g, idx);
    ErrorPersists(lut, r, src, cursor, i + 1, |r|);
  }

  /** A cell with a table entry extends the prefix by the entry or by the next bit. */
  lemma RowPrefixNext(lut: Table, r: seq<Bit>, src: BitSource, cursor: nat, i: nat, g: Gen, idx: nat, next: Gen)
    requires ValidValues(lut) && i < |r| && RowPrefix(lut, r, src, cursor, i) == Ok(g)
    requires idx == IndexAt(g.out, r, i) && idx < |lut|
    requires next == if lut[idx] == RandomChoice then Gen(g.out + [src(g.cursor)], g.cursor + 1)
                     else Gen(g.out + [lut[idx]], g.cursor)
    ensures RowPrefix(lut, r, src, cursor, i + 1) == Ok(next)
  {
    RowPrefixStep(lut, r, src, cursor, i + 1, g, idx);
  }

  /** What the loop needs from RowPrefix: cell `m - 1`, by the table entry it hits. */
  lemma RowPrefixStep(lut: Table, r: seq<Bit>, src: BitSource, cursor: nat, m: nat, g: Gen, idx: nat)
    requires ValidValues(lut) && 0 < m <= |r| && RowPrefix(lut, r, src, cursor, m - 1) == Ok(g)
    requires idx == IndexAt(g.out, r, m - 1)
    ensures idx >= |lut| ==> RowPrefix(lut, r, src, cursor, m) == Err(IndexError(idx))
    ensures idx < |lut| && lut[idx] == RandomChoice ==>
      RowPrefix(lut, r, src, cursor, m) == Ok(Gen(g.out + [src(g.cursor)], g.cursor + 1))
    ensures idx < |lut| && lut[idx] != RandomChoice ==>
      RowPrefix(lut, r, src, cursor, m) == Ok(Gen(g.out + [lut[idx]], g.cursor))
  {
  }

  /** A whole generated row has the row's length and follows the rule cell by cell. */
  lemma RowResult(lut: Table, r: seq<Bit>, src: BitSource, cursor: nat)
    requires ValidValues(lut)
    ensures var res := NextRow(lut, r, src, cursor);
      && (res.Ok? ==> |res.value.out| == |r| && Generated(lut, r, src, cursor, res.value.out, res.value.cursor))
      && (|lut| >= 32 ==> res.Ok?)
  {
    var res := NextRow(lut, r, src, cursor);
    if res.Ok? {
      GeneratedIff(lut, r, src, cursor, res.value.out, res.value.cursor);
    }
    if |lut| >= 32 {
      FullTableNeverFails(lut, r, src, cursor, |r|);
    }
  }

  // ---------------------------------------------------------------------
  // Properties.

  /** Once a cell fails, the whole row fails with the same error. */
  lemma {:induction false} ErrorPersists(lut: Table, r: seq<Bit>, src: BitSource, cursor: nat, n: nat, m: nat)
    requires ValidValues(lut) && n <= m <= |r|
    requires RowPrefix(lut, r, src, cursor, n).Err?
    ensures RowPrefix(lut, r, src, cursor, m) == RowPrefix(lut, r, src, cursor, n)
    decreases m
  {
    if m > n {
      ErrorPersists(lut, r, src, cursor, n, m - 1);
    }
  }

  /** A table with an entry for every code never makes the row fail. */
  lemma {:induction false} FullTableNeverFails(lut: Table, r: seq<Bit>, src: BitSource, cursor: nat, n: nat)
    requires ValidValues(lut) && |lut| >= 32 && n <= |r|
    ensures RowPrefix(lut, r, src, cursor, n).Ok?
  {
    if n > 0 {
      FullTableNeverFails(lut, r, src, cursor, n - 1);
    }
  }

  /** The neighbourhood of cell `i` depends only on the cells before `i`. */
  lemma PrefixIndex(out: seq<Bit>, longer: seq<Bit>, r: seq<Bit>, i: nat)
    requires i < |r| && i <= |out| <= |longer| && out == longer[..|out|]
    ensures IndexAt(out, r, i) == IndexAt(longer, r, i)
  {
  }

  lemma {:induction false} PrefixHits(lut: Table, r: seq<Bit>, out: seq<Bit>, longer: seq<Bit>, n: nat)
    requires n <= |out| <= |longer| <= |r| && out == longer[..|out|]
    ensures RandomHits(lut, r, out, n) == RandomHits(lut, r, longer, n)
  {
    if n > 0 {
      PrefixHits(lut, r, out, longer, n - 1);
      PrefixIndex(out, longer, r, n - 1);
    }
  }

  /** Dropping the last cell of a generated prefix leaves a generated prefix. */
  lemma GeneratedRestrict(lut: Table, r: seq<Bit>, src: BitSource, cursor: nat, out: seq<Bit>, next: nat)
    requires Generated(lut, r, src, cursor, out, next) && |out| > 0
    ensures var p := out[..|out| - 1];
      Generated(lut, r, src, cursor, p, cursor + RandomHits(lut, r, p, |p|))
  {
    var p := out[..|out| - 1];
    forall i | 0 <= i < |p|
      ensures FollowsRule(lut, r, src, cursor, p, i)
    {
      assert FollowsRule(lut, r, src, cursor, out, i);
      PrefixIndex(p, out, r, i);
      PrefixHits(lut, r, p, out, i);
    }
  }

  /** Appending a cell keeps every earlier cell following the rule. */
  lemma EarlierCellsKept(lut: Table, r: seq<Bit>, src: BitSource, cursor: nat, p: seq<Bit>, out: seq<Bit>)
    requires |p| <= |out| <= |r| && out[..|p|] == p
    requires forall i :: 0 <= i < |p| ==> FollowsRule(lut, r, src, cursor, p, i)
    ensures forall i :: 0 <= i < |p| ==> FollowsRule(lut, r, src, cursor, out, i)
  {
    forall i | 0 <= i < |p|
      ensures FollowsRule(lut, r, src, cursor, out, i)
    {
      assert FollowsRule(lut, r, src, cursor, p, i);
      PrefixIndex(p, out, r, i);
      PrefixHits(lut, r, p, out, i);
    }
  }

  /** A step appends one cell and keeps the ones before it. */
  lemma StepAppends(lut: Table, r: seq<Bit>, src: BitSource, p: seq<Bit>, c: nat, out: seq<Bit>, next: nat)
    requires ValidValues(lut) && |p| < |r|
    requires Step(lut, r, src, Gen(p, c)) == Ok(Gen(out, next))
    ensures |out| == |p| + 1 && out[..|p|] == p
  {
  }

  /** The cell a step appends follows the rule, and the cursor counts it. */
  lemma StepCellFollows(lut: Table, r: seq<Bit>, src: BitSource, cursor: nat, p: seq<Bit>, c: nat, out: seq<Bit>, next: nat)
    requires ValidValues(lut) && |p| < |r| && c == cursor + RandomHits(lut, r, p, |p|)
    requires Step(lut, r, src, Gen(p, c)) == Ok(Gen(out, next))
    ensures FollowsRule(lut, r, src, cursor, out, |p|)
    ensures next == cursor + RandomHits(lut, r, out, |out|)
  {
    StepAppends(lut, r, src, p, c, out, next);
    PrefixHits(lut, r, p, out, |p|);
    PrefixIndex(p, out, r, |p|);
  }

  /** One step of the loop turns a generated prefix into a longer one. */
  lemma GeneratedExtend(lut: Table, r: seq<Bit>, src: BitSource, cursor: nat, p: seq<Bit>, c: nat, out: seq<Bit>, next: nat)
    requires ValidValues(lut) && Generated(lut, r, src, cursor, p, c) && |p| < |r|
    requires Step(lut, r, src, Gen(p, c)) == Ok(Gen(out, next))
    ensures Generated(lut, r, src, cursor, out, next)
  {
    StepAppends(lut, r, src, p, c, out, next);
    StepCellFollows(lut, r, src, cursor, p, c, out, next);
    EarlierCellsKept(lut, r, src, cursor, p, out);
  }

  /** FollowsRule spelled out for a known index and draw count. */
  lemma FollowsRuleAt(lut: Table, r: seq<Bit>, src: BitSource, cursor: nat, out: seq<Bit>, i: nat, idx: nat, hits: nat)
    requires i < |out| <= |r| && FollowsRule(lut, r, src, cursor, out, i)
    requires idx == IndexAt(out, r, i) && hits == RandomHits(lut, r, out, i)
    ensures idx < |lut| && out[i] == (if lut[idx] == RandomChoice then src(cursor + hits) else lut[idx])
  {
  }

  /** The last cell of a generated prefix, and the cursor after it, in terms of the rest. */
  lemma LastCell(lut: Table, r: seq<Bit>, src: BitSource, cursor: nat, p: seq<Bit>, c: nat, out: seq<Bit>, next: nat)
    requires ValidValues(lut) && Generated(lut, r, src, cursor, out, next) && |out| > 0
    requires p == out[..|out| - 1] && c == cursor + RandomHits(lut, r, p, |p|)
    ensures var idx := IndexAt(p, r, |p|);
      && idx < |lut|
      && out[|p|] == (if lut[idx] == RandomChoice then src(c) else lut[idx])
      && next == c + (if lut[idx] == RandomChoice then 1 else 0)
  {
    var n := |out|;
    var idx := IndexAt(out, r, n - 1);
    var hits := RandomHits(lut, r, out, n - 1);
    PrefixIndex(p, out, r, n - 1);
    PrefixHits(lut, r, p, out, n - 1);
    FollowsRuleAt(lut, r, src, cursor, out, n - 1, idx, hits);
  }

  /** The last cell of a generated prefix is the step taken after the rest. */
  lemma GeneratedLastStep(lut: Table, r: seq<Bit>, src: BitSource, cursor: nat, p: seq<Bit>, c: nat, out: seq<Bit>, next: nat)
    requires ValidValues(lut) && Generated(lut, r, src, cursor, out, next) && |out| > 0
    requires p == out[..|out| - 1] && c == cursor + RandomHits(lut, r, p, |p|)
    ensures Step(lut, r, src, Gen(p, c)) == Ok(Gen(out, next))
  {
    LastCell(lut, r, src, cursor, p, c, out, next);
    assert out == p + [out[|p|]];
  }

  /**
   The recursive definition and the cell-by-cell one agree: a prefix is what
   RowPrefix computes exactly when every cell follows the rule.
   */
  lemma {:induction false} GeneratedIff(lut: Table, r: seq<Bit>, src: BitSource, cursor: nat, out: seq<Bit>, next: nat)
    requires ValidValues(lut) && |out| <= |r|
    ensures RowPrefix(lut, r, src, cursor, |out|) == Ok(Gen(out, next)) <==> Generated(lut, r, src, cursor, out, next)
  {
    var n := |out|;
    if n == 0 {
      return;
    }
    var p := out[..n - 1];
    var pNext := cursor + RandomHits(lut, r, p, n - 1);
    if RowPrefix(lut, r, src, cursor, n) == Ok(Gen(out, next)) {
      var g := RowPrefix(lut, r, src, cursor, n - 1).value;
      GeneratedIff(lut, r, src, cursor, g.out, g.cursor);
      GeneratedExtend(lut, r, src, cursor, g.out, g.cursor, out, next);
    }
    if Generated(lut, r, src, cursor, out, next) {
      GeneratedRestrict(lut, r, src, cursor, out, next);
      GeneratedIff(lut, r, src, cursor, p, pNext);
      GeneratedLastStep(lut, r, src, cursor, p, pNext, out, next);
    }
  }

  /**
   The cell-by-cell definition fixes the row: two rows that both follow the
   rule for the same table, previous row and bits are the same row and use
   the same number of bits.
   */
  lemma ReferenceRowUnique(lut: Table, r: seq<Bit>, src: BitSource, cursor: nat,
                           out1: seq<Bit>, next1: nat, out2: seq<Bit>, next2: nat)
    requires ValidValues(lut)
    requires |out1| == |r| && Generated(lut, r, src, cursor, out1, next1)
    requires |out2| == |r| && Generated(lut, r, src, cursor, out2, next2)
    ensures out1 == out2 && next1 == next2
  {
    GeneratedIff(lut, r, src, cursor, out1, next1);
    GeneratedIff(lut, r, src, cursor, out2, next2);
  }

  /**
   With a table whose every entry is NoWall (or every entry Wall), each cell
   is NoWall (Wall), whatever the previous row, and no bit is drawn.
   */
  lemma {:induction false} UniformTablePrefix(lut: Table, v: Bit, r: seq<Bit>, src: BitSource, cursor: nat, n: nat)
    requires |lut| >= 32 && (forall i :: 0 <= i < |lut| ==> lut[i] == v) && n <= |r|
    ensures ValidValues(lut)
    ensures var res := RowPrefix(lut, r, src, cursor, n);
      res.Ok? && res.value.cursor == cursor && forall i :: 0 <= i < n ==> res.value.out[i] == v
  {
    assert ValidValues(lut);
    if n > 0 {
      UniformTablePrefix(lut, v, r, src, cursor, n - 1);
      var g := RowPrefix(lut, r, src, cursor, n - 1).value;
      var idx := IndexAt(g.out, r, n - 1);
      assert lut[idx] == v;
      RowPrefixStep(lut, r, src, cursor, n, g, idx);
    }
  }

  lemma UniformTableRow(lut: Table, v: Bit, r: seq<Bit>, src: BitSource, cursor: nat)
    requires |lut| >= 32 && (forall i :: 0 <= i < |lut| ==> lut[i] == v)
    ensures ValidValues(lut) && NextRow(lut, r, src, cursor) == Ok(Gen(seq(|r|, _ => v), cursor))
  {
    UniformTablePrefix(lut, v, r, src, cursor, |r|);
    var g := NextRow(lut, r, src, cursor).value;
    assert g.out == seq(|r|, _ => v);
  }

  /** A row without walls. */
  predicate NoWalls(s: seq<Bit>) {
    forall i :: 0 <= i < |s| ==> s[i] == NoWall
  }

  /**
   An all-empty previous row stays empty when the table maps the all-zero
   neighbourhood to NoWall: every cell then sees only zeros.
   */
  lemma {:induction false} EmptyRowStaysEmptyPrefix(lut: Table, r: seq<Bit>, src: BitSource, cursor: nat, n: nat)
    requires ValidValues(lut) && |lut| > 0 && lut[0] == NoWall && NoWalls(r) && n <= |r|
    ensures RowPrefix(lut, r, src, cursor, n).Ok?
    ensures RowPrefix(lut, r, src, cursor, n).value.cursor == cursor
    ensures NoWalls(RowPrefix(lut, r, src, cursor, n).value.out)
  {
    if n > 0 {
      EmptyRowStaysEmptyPrefix(lut, r, src, cursor, n - 1);
      var g := RowPrefix(lut, r, src, cursor, n - 1).value;
      var out: seq<Bit> := g.out + [NoWall];
      assert NoWalls(out);
      assert NeighbourhoodAt(g.out, r, n - 1) == Neighbourhood(0, 0, 0, 0, 0);
      RowPrefixStep(lut, r, src, cursor, n, g, 0);
    }
  }

  lemma EmptyRowStaysEmpty(lut: Table, r: seq<Bit>, src: BitSource, cursor: nat)
    requires ValidValues(lut) && |lut| > 0 && lut[0] == NoWall && NoWalls(r)
    ensures NextRow(lut, r, src, cursor) == Ok(Gen(seq(|r|, _ => NoWall), cursor))
  {
    EmptyRowStaysEmptyPrefix(lut, r, src, cursor, |r|);
    var g := NextRow(lut, r, src, cursor).value;
    assert g.out == seq(|r|, _ => NoWall);
  }
}
