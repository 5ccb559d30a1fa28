/** The row order of GIF frames (Source/Plugins/PluginGIF.cpp:139-141): Load
    (:931-946) and Save (:1331-1338) step through the rows with the same
    rule, in four passes for an interlaced frame. */
module GifInterlace {
  import opened Bytes

  const PASSES: nat := 4
  const OFFSET: seq<nat> := [0, 4, 2, 1]
  const INCREMENT: seq<nat> := [8, 8, 4, 2]

  /** One step of the rule: y += increment[pass]; if that leaves the frame,
      ++pass and, while a pass remains, y = offset[pass]. Once the fourth
      pass is over, y stays past the frame. */
  function NextRow(y: nat, pass: nat, height: nat): (r: (nat, nat))
    requires pass < PASSES
    ensures r.1 == pass ==> r.0 == y + INCREMENT[pass] && r.0 < height
    ensures r.1 == pass + 1 && r.1 < PASSES ==> y + INCREMENT[pass] >= height && r.0 == OFFSET[r.1]
    ensures r.1 == PASSES ==> r.0 >= height
    ensures r.1 == pass || r.1 == pass + 1
  {
    var y' := y + INCREMENT[pass];
    if y' >= height then
      if pass + 1 < PASSES then (OFFSET[pass + 1], pass + 1) else (y', pass + 1)
    else (y', pass)
  }

  /** The rows visited from row y of pass pass on, until y leaves the frame. */
  function Rows(y: nat, pass: nat, height: nat): seq<nat>
    requires pass <= PASSES
    requires pass == PASSES ==> y >= height
    decreases PASSES - pass, height - y
  {
    if y >= height then []
    else
      var next := NextRow(y, pass, height);
      [y] + Rows(next.0, next.1, height)
  }

  /** The rows of an interlaced frame, in the order Load fills them and Save
      reads them. */
  function InterlacedRows(height: nat): seq<nat>
  {
    Rows(0, 0, height)
  }

  /** The rows y, y + inc, y + 2 inc, ... below height. */
  function PassRows(y: nat, inc: nat, height: nat): seq<nat>
    requires inc > 0
    decreases height - y
  {
    if y >= height then [] else [y] + PassRows(y + inc, inc, height)
  }

  /** Row k of the pass is y + k inc, below height. */
  lemma {:induction false} PassRowsAt(y: nat, inc: nat, height: nat, k: nat)
    requires inc > 0 && k < |PassRows(y, inc, height)|
    ensures PassRows(y, inc, height)[k] == y + k * inc < height
    decreases k
  {
    if k > 0 {
      PassRowsAt(y + inc, inc, height, k - 1);
      assert (y + inc) + (k - 1) * inc == y + k * inc;
    }
  }

  /** ... and the rows grow. */
  lemma PassRowsAre(y: nat, inc: nat, height: nat)
    requires inc > 0
    ensures var r := PassRows(y, inc, height);
      (forall k :: 0 <= k < |r| ==> r[k] == y + k * inc && r[k] < height) &&
      (forall i, j :: 0 <= i < j < |r| ==> r[i] < r[j])
  {
    var r := PassRows(y, inc, height);
    forall k | 0 <= k < |r|
      ensures r[k] == y + k * inc && r[k] < height
    {
      PassRowsAt(y, inc, height, k);
    }
    forall i, j | 0 <= i < j < |r|
      ensures r[i] < r[j]
    {
      PassRowsAt(y, inc, height, i);
      PassRowsAt(y, inc, height, j);
      MulLe(i + 1, j, inc);
      assert (i + 1) * inc == i * inc + inc;
    }
  }

  /** Every row y + k inc below height is in the pass, at position k. */
  lemma {:induction false} PassRowsHas(y: nat, inc: nat, height: nat, k: nat)
    requires inc > 0 && y + k * inc < height
    ensures k < |PassRows(y, inc, height)| && PassRows(y, inc, height)[k] == y + k * inc
    decreases k
  {
    if k > 0 {
      assert (y + inc) + (k - 1) * inc == y + k * inc;
      PassRowsHas(y + inc, inc, height, k - 1);
    }
  }

  predicate Distinct(s: seq<nat>)
  {
    forall i, j :: 0 <= i < j < |s| ==> s[i] != s[j]
  }

  predicate InPass(s: seq<nat>, p: nat)
  {
    forall i :: 0 <= i < |s| ==> PassOf(s[i]) == p
  }

  predicate PassesBelow(s: seq<nat>, p: nat)
  {
    forall i :: 0 <= i < |s| ==> PassOf(s[i]) < p
  }

  /** Distinct rows of the passes below p, followed by distinct rows of
      pass p. */
  lemma ConcatDistinct(a: seq<nat>, b: seq<nat>, p: nat)
    requires Distinct(a) && Distinct(b)
    requires PassesBelow(a, p) && InPass(b, p)
    ensures Distinct(a + b) && PassesBelow(a + b, p + 1)
  {
    var c := a + b;
    forall i, j | 0 <= i < j < |c|
      ensures c[i] != c[j]
    {
      if j < |a| {
        assert c[i] == a[i] && c[j] == a[j];
      } else if i < |a| {
        assert c[i] == a[i] && c[j] == b[j - |a|];
      } else {
        assert c[i] == b[i - |a|] && c[j] == b[j - |a|];
      }
    }
    forall i | 0 <= i < |c|
      ensures PassOf(c[i]) < p + 1
    {
      if i >= |a| {
        assert c[i] == b[i - |a|];
      }
    }
  }

  /** One pass from row y, followed by whatever the later passes visit. */
  lemma {:induction false} RowsSplit(y: nat, pass: nat, height: nat)
    requires pass < PASSES
    ensures Rows(y, pass, height) == PassRows(y, INCREMENT[pass], height) + Later(y, pass, height)
    decreases height - y
  {
    if y < height {
      var inc := INCREMENT[pass];
      var next := NextRow(y, pass, height);
      if y + inc < height {
        assert next == (y + inc, pass);
        RowsSplit(y + inc, pass, height);
        ConsAssoc(y, PassRows(y + inc, inc, height), Later(y, pass, height));
      } else {
        assert PassRows(y + inc, inc, height) == [];
        assert [y] + Later(y, pass, height) == Rows(y, pass, height);
      }
    }
  }

  /** What the passes after pass visit, once row y of pass has been reached. */
  function Later(y: nat, pass: nat, height: nat): seq<nat>
    requires pass < PASSES
  {
    if pass + 1 < PASSES && y < height then Rows(OFFSET[pass + 1], pass + 1, height) else []
  }

  lemma Assoc4(a: seq<nat>, b: seq<nat>, c: seq<nat>, d: seq<nat>)
    ensures a + (b + (c + (d + []))) == a + b + c + d
  {
    assert d + [] == d;
  }

  lemma ConsAssoc(y: nat, a: seq<nat>, b: seq<nat>)
    ensures [y] + (a + b) == ([y] + a) + b
  {
  }

  /** The pass a row belongs to: multiples of 8 in the first, 4 mod 8 in
      the second, 2 mod 4 in the third, odd rows in the fourth. */
  function PassOf(y: nat): (p: nat)
    ensures p < PASSES
  {
    if y % 8 == 0 then 0 else if y % 8 == 4 then 1 else if y % 4 == 2 then 2 else 3
  }

  /** Row k of pass p belongs to pass p. */
  lemma PassOfRow(p: nat, k: nat)
    requires p < PASSES
    ensures PassOf(OFFSET[p] + k * INCREMENT[p]) == p
  {
    if p == 0 {
      assert OFFSET[p] + k * INCREMENT[p] == 8 * k;
      FirstPassRow(k);
    } else if p == 1 {
      assert OFFSET[p] + k * INCREMENT[p] == 8 * k + 4;
      SecondPassRow(k);
    } else if p == 2 {
      assert OFFSET[p] + k * INCREMENT[p] == 4 * k + 2;
      ThirdPassRow(k);
    } else {
      assert OFFSET[p] + k * INCREMENT[p] == 2 * k + 1;
      LastPassRow(k);
    }
  }

  lemma FirstPassRow(k: nat)
    ensures PassOf(8 * k) == 0
  {
  }

  lemma SecondPassRow(k: nat)
    ensures PassOf(8 * k + 4) == 1
  {
  }

  lemma ThirdPassRow(k: nat)
    ensures PassOf(4 * k + 2) == 2
  {
    var y := 4 * k + 2;
    assert y % 8 == 2 || y % 8 == 6;
  }

  lemma LastPassRow(k: nat)
    ensures PassOf(2 * k + 1) == 3
  {
    var y := 2 * k + 1;
    assert y % 8 % 2 == 1;
    assert y % 4 % 2 == 1;
  }

  /** Every row of pass p's sequence belongs to pass p. */
  lemma PassRowsOf(p: nat, height: nat)
    requires p < PASSES
    ensures InPass(PassRows(OFFSET[p], INCREMENT[p], height), p)
    ensures Distinct(PassRows(OFFSET[p], INCREMENT[p], height))
  {
    var r := PassRows(OFFSET[p], INCREMENT[p], height);
    PassRowsAre(OFFSET[p], INCREMENT[p], height);
    forall k | 0 <= k < |r|
      ensures PassOf(r[k]) == p
    {
      PassRowsAt(OFFSET[p], INCREMENT[p], height, k);
      PassOfRow(p, k);
    }
  }

  /** The rows of an interlaced frame of five rows or more: the four passes
      in full. */
  lemma InterlacedPasses(height: nat)
    requires height >= 5
    ensures InterlacedRows(height) ==
      PassRows(0, 8, height) + PassRows(4, 8, height) + PassRows(2, 4, height) + PassRows(1, 2, height)
  {
    RowsSplit(0, 0, height);
    assert Later(0, 0, height) == Rows(4, 1, height);
    RowsSplit(4, 1, height);
    assert Later(4, 1, height) == Rows(2, 2, height);
    RowsSplit(2, 2, height);
    assert Later(2, 2, height) == Rows(1, 3, height);
    RowsSplit(1, 3, height);
    assert Later(1, 3, height) == [];
    Assoc4(PassRows(0, 8, height), PassRows(4, 8, height), PassRows(2, 4, height), PassRows(1, 2, height));
  }

  /** Each row lies in the sequence of its pass. */
  lemma RowInPass(y: nat, height: nat)
    requires y < height
    ensures y in PassRows(OFFSET[PassOf(y)], INCREMENT[PassOf(y)], height)
  {
    var p := PassOf(y);
    if y % 8 == 0 {
      RowAt(y, height, 0, 8);
    } else if y % 8 == 4 {
      RowAt(y, height, 4, 8);
    } else if y % 4 == 2 {
      RowAt(y, height, 2, 4);
    } else {
      RowAt(y, height, 1, 2);
    }
  }

  /** A row y with y mod inc == off is in the pass from off by inc. */
  lemma RowAt(y: nat, height: nat, off: nat, inc: nat)
    requires y < height && 0 < inc && off < inc && y % inc == off
    ensures y in PassRows(off, inc, height)
  {
    var k := y / inc;
    assert y == off + k * inc;
    PassRowsHas(off, inc, height, k);
  }

  /** The row order of an interlaced image as the GIF89a specification
      (appendix E) lays it out: each of the four passes in full, a pass with
      no row inside the frame contributing nothing. */
  function PassOrder(height: nat): seq<nat>
  {
    PassRows(0, 8, height) + PassRows(4, 8, height) + PassRows(2, 4, height) + PassRows(1, 2, height)
  }

  /** The four passes visit every row of the frame and no other, whatever
      its height. */
  lemma PassOrderCovers(height: nat)
    ensures forall y: nat :: y in PassOrder(height) <==> y < height
  {
    var p0, p1, p2, p3 := PassRows(0, 8, height), PassRows(4, 8, height), PassRows(2, 4, height), PassRows(1, 2, height);
    var r := PassOrder(height);
    assert r == p0 + p1 + p2 + p3;
    forall y | y in r
      ensures y < height
    {
      assert y in p0 || y in p1 || y in p2 || y in p3;
      if y in p0 {
        var k :| 0 <= k < |p0| && p0[k] == y;
        PassRowsAt(0, 8, height, k);
      } else if y in p1 {
        var k :| 0 <= k < |p1| && p1[k] == y;
        PassRowsAt(4, 8, height, k);
      } else if y in p2 {
        var k :| 0 <= k < |p2| && p2[k] == y;
        PassRowsAt(2, 4, height, k);
      } else {
        var k :| 0 <= k < |p3| && p3[k] == y;
        PassRowsAt(1, 2, height, k);
      }
    }
    forall y: nat | y < height
      ensures y in r
    {
      RowInPass(y, height);
    }
  }

  /** ... and none twice. */
  lemma PassOrderOnce(height: nat)
    ensures Distinct(PassOrder(height))
  {
    var p0, p1, p2, p3 := PassRows(0, 8, height), PassRows(4, 8, height), PassRows(2, 4, height), PassRows(1, 2, height);
    PassRowsOf(0, height);
    PassRowsOf(1, height);
    PassRowsOf(2, height);
    PassRowsOf(3, height);
    assert PassesBelow(p0, 1);
    ConcatDistinct(p0, p1, 1);
    ConcatDistinct(p0 + p1, p2, 2);
    ConcatDistinct(p0 + p1 + p2, p3, 3);
  }

  /** For a frame of one row, or of five rows or more, Load and Save follow
      the four passes, so they visit every row exactly once. */
  lemma InterlacedIsPassOrder(height: nat)
    requires height == 1 || height >= 5
    ensures InterlacedRows(height) == PassOrder(height)
    ensures forall y: nat :: y in InterlacedRows(height) <==> y < height
    ensures Distinct(InterlacedRows(height))
  {
    if height == 1 {
      assert InterlacedRows(height) == [0];
      assert PassRows(4, 8, 1) == [] && PassRows(2, 4, 1) == [] && PassRows(1, 2, 1) == [];
      assert PassOrder(height) == [0] + [] + [] + [];
    } else {
      InterlacedPasses(height);
    }
    PassOrderCovers(height);
    PassOrderOnce(height);
  }

  /** An interlaced frame of two to four rows visits row 0 only: the second
      pass starts at row 4, which is already past the frame, and that ends
      the loop, so the rows of the third and fourth passes are never visited
      (for two rows, row 1 is lost where the passes visit [0, 1]). */
  lemma InterlacedShort(height: nat)
    requires 2 <= height <= 4
    ensures InterlacedRows(height) == [0]
    ensures 1 in PassOrder(height) && 1 !in InterlacedRows(height)
  {
    RowsSplit(0, 0, height);
    assert Later(0, 0, height) == Rows(4, 1, height) == [];
    assert PassRows(0, 8, height) == [0];
    PassOrderCovers(height);
  }
}
