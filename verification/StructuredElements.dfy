/** The element enumerator of a two-dimensional structured pane (COM/src/Element_accessors.C, COM/include/Element_accessors.hpp):
    it steps along the rows of the grid instead of computing every position anew. */
module StructuredElements {
  import opened Arithmetic

  /** The node in row r and column c of a grid with ni nodes per column, all counted from zero. */
  function Node(ni: nat, r: int, c: int): int {
    c * ni + r + 1
  }

  /** Row and column of element i, counted from zero. */
  function Row(ni: nat, i: int): int
    requires ni >= 2
  {
    (i - 1) % (ni - 1)
  }

  function Column(ni: nat, i: int): int
    requires ni >= 2
  {
    (i - 1) / (ni - 1)
  }

  lemma {:induction false} RowColumn(ni: nat, i: int)
    requires ni >= 2
    ensures i - 1 == Column(ni, i) * (ni - 1) + Row(ni, i) && 0 <= Row(ni, i) < ni - 1
    ensures i + Column(ni, i) == Column(ni, i) * ni + Row(ni, i) + 1
  {
    Distribute(ni - 1, 1, Column(ni, i));
  }

  /** Elements of the grid have rows and columns of the grid. */
  lemma {:induction false} ColumnInRange(ni: nat, nj: nat, i: int)
    requires ni >= 2 && 1 <= i <= (ni - 1) * (nj - 1)
    ensures 0 <= Column(ni, i) < nj - 1
  {
    RowColumn(ni, i);
    assert (nj - 1) * (ni - 1) == (ni - 1) * (nj - 1);
    if Column(ni, i) >= nj - 1 {
      MulMono(nj - 1, Column(ni, i), ni - 1);
      assert false;
    }
    if Column(ni, i) < 0 {
      MulMono(Column(ni, i), -1, ni - 1);
      assert false;
    }
  }

  /** The number of elements of a grid with ni by nj nodes. */
  function Elements(ni: nat, nj: nat): int
    requires ni >= 1 && nj >= 1
  {
    (ni - 1) * (nj - 1)
  }

  /** An enumerator with these fields stands on element i of the grid: `base` is the number of the element's first node,
      `res` its row. */
  ghost predicate StandsOn(ni: nat, nj: nat, base: int, res: int, i: int)
    requires ni >= 1 && nj >= 1
  {
    ni >= 2 && 1 <= i <= Elements(ni, nj) && base == Node(ni, Row(ni, i), Column(ni, i)) && res == Row(ni, i)
  }

  /** It stands on some element of the grid. */
  ghost predicate OnSomeElement(ni: nat, nj: nat, base: int, res: int)
    requires ni >= 1 && nj >= 1
  {
    exists i :: StandsOn(ni, nj, base, res, i)
  }

  class GridEnumerator {
    const ni: nat
    const nj: nat
    var base: int
    var res: int

    /** The fields are those of element i, whether or not the grid has so many. */
    ghost predicate At(i: int)
      requires ni >= 2
      reads this
    {
      base == Node(ni, Row(ni, i), Column(ni, i)) && res == Row(ni, i)
    }

    /** The constructor for the index of an element. */
    constructor (ni: nat, nj: nat, i: int)
      requires ni >= 2 && nj >= 1 && 1 <= i <= Elements(ni, nj)
      ensures this.ni == ni && this.nj == nj && At(i) && StandsOn(ni, nj, base, res, i)
    {
      this.ni, this.nj := ni, nj;
      res := (i - 1) % (ni - 1);
      base := i + (i - 1) / (ni - 1);
      RowColumn(ni, i);
    }

    /** The same for any index: it answers false where the source's assertion fails. */
    static method Create(ni: nat, nj: nat, i: int) returns (ok: bool, e: GridEnumerator?)
      requires ni >= 1 && nj >= 1
      ensures ok <==> 1 <= i <= Elements(ni, nj)
      ensures ok <==> e != null
      ensures ok ==> fresh(e) && e.ni == ni && e.nj == nj && StandsOn(ni, nj, e.base, e.res, i)
    {
      ok, e := 1 <= i <= (ni - 1) * (nj - 1), null;
      if ok {
        e := new GridEnumerator(ni, nj, i);
      }
    }

    /** The constructor for a row and a column, both from one. */
    constructor FromPair(ni: nat, nj: nat, first: int, second: int)
      requires 0 < first <= ni && 0 < second <= nj
      ensures this.ni == ni && this.nj == nj
      ensures OnSomeElement(ni, nj, base, res) <==> first <= ni - 1 && second <= nj - 1
      ensures first <= ni - 1 && second <= nj - 1 ==> StandsOn(ni, nj, base, res, (second - 1) * (ni - 1) + first)
    {
      this.ni, this.nj := ni, nj;
      res := first - 1;
      base := (second - 1) * ni + first;
      PairExact(ni, nj, first, second, (second - 1) * ni + first, first - 1);
    }

    /** The same for any pair. The source's assertions let every pair through that is the row and column of a node;
        the enumerator stands on an element, namely the one there, exactly when it is not in the last row or the last column
        of nodes. */
    static method CreateFromPair(ni: nat, nj: nat, first: int, second: int) returns (ok: bool, e: GridEnumerator?)
      requires ni >= 1 && nj >= 1
      ensures ok <==> 0 < first <= ni && 0 < second <= nj
      ensures ok <==> e != null
      ensures ok ==> fresh(e) && e.ni == ni && e.nj == nj
      ensures ok ==> (OnSomeElement(ni, nj, e.base, e.res) <==> first <= ni - 1 && second <= nj - 1)
      ensures ok && first <= ni - 1 && second <= nj - 1 ==>
        StandsOn(ni, nj, e.base, e.res, (second - 1) * (ni - 1) + first)
    {
      ok, e := first > 0 && first <= ni && second > 0 && second <= nj, null;
      if ok {
        e := new GridEnumerator.FromPair(ni, nj, first, second);
      }
    }

    /** `next`. */
    method Next(ghost i: int)
      requires ni >= 2 && At(i)
      modifies this`base, this`res
      ensures At(i + 1)
    {
      base := base + 1;
      res := res + 1;
      if res == ni - 1 {
        base := base + 1;
        res := 0;
      }
      NextPosition(ni, i);
    }

    /** `id`. */
    method Id(ghost i: int) returns (r: int)
      requires ni >= 2 && At(i)
      ensures r == i
    {
      RowColumn(ni, i);
      QuotientUnique(base - 1, ni, Column(ni, i), Row(ni, i));
      r := base - (base - 1) / ni;
    }

    /** `operator[]`: the corners of the element, counter-clockwise, are nodes of the grid. */
    method Corner(k: nat, ghost i: int) returns (node: int)
      requires ni >= 1 && nj >= 1 && k < 4 && StandsOn(ni, nj, base, res, i)
      ensures node == Node(ni, Row(ni, i) + (if k == 1 || k == 2 then 1 else 0), Column(ni, i) + if k >= 2 then 1 else 0)
      ensures 1 <= node <= ni * nj
    {
      var t := base;
      if k > 1 {
        t := t + ni;
      }
      node := if k == 1 || k == 2 then t + 1 else t;
      RowColumn(ni, i);
      ColumnInRange(ni, nj, i);
      Distribute(Column(ni, i), 1, ni);
      InGrid(ni, nj, Row(ni, i) + (if k == 1 || k == 2 then 1 else 0), Column(ni, i) + if k >= 2 then 1 else 0);
    }
  }

  lemma {:induction false} InGrid(ni: nat, nj: nat, r: int, c: int)
    requires 0 <= r < ni && 0 <= c < nj
    ensures 1 <= Node(ni, r, c) <= ni * nj
  {
    MulGap(c, nj, ni);
    MulMono(0, c, ni);
    assert nj * ni == ni * nj;
  }

  lemma {:induction false} NextPosition(ni: nat, i: int)
    requires ni >= 2
    ensures if Row(ni, i) + 1 == ni - 1 then Row(ni, i + 1) == 0 && Column(ni, i + 1) == Column(ni, i) + 1
            else Row(ni, i + 1) == Row(ni, i) + 1 && Column(ni, i + 1) == Column(ni, i)
    ensures Node(ni, 0, Column(ni, i) + 1) == Node(ni, ni, Column(ni, i))
  {
    var q, r := Column(ni, i), Row(ni, i);
    RowColumn(ni, i);
    Distribute(q, 1, ni);
    if r + 1 == ni - 1 {
      Distribute(q, 1, ni - 1);
      QuotientUnique(i, ni - 1, q + 1, 0);
    } else {
      QuotientUnique(i, ni - 1, q, r + 1);
    }
  }

  /** The first node of element i determines i: it is the node with the element's row and column. */
  lemma {:induction false} FirstNodeExact(ni: nat, i: int, r: int, c: int)
    requires ni >= 2 && 0 <= r < ni
    ensures Node(ni, Row(ni, i), Column(ni, i)) == Node(ni, r, c) <==> Row(ni, i) == r && Column(ni, i) == c
  {
    RowColumn(ni, i);
    if Column(ni, i) * ni + Row(ni, i) == c * ni + r {
      DigitsUnique(Column(ni, i), Row(ni, i), c, r, ni);
    }
  }

  /** The element in the given row and column, counted from one. */
  lemma {:induction false} PairOfElement(ni: nat, nj: nat, first: int, second: int)
    requires 0 < first <= ni - 1 && 0 < second <= nj - 1
    ensures StandsOn(ni, nj, (second - 1) * ni + first, first - 1, (second - 1) * (ni - 1) + first)
  {
    QuotientUnique((second - 1) * (ni - 1) + first - 1, ni - 1, second - 1, first - 1);
    MulMono(0, second - 1, ni - 1);
    MulGap(second - 1, nj - 1, ni - 1);
    assert (nj - 1) * (ni - 1) == Elements(ni, nj);
  }

  lemma {:induction false} ElementOfPair(ni: nat, nj: nat, first: int, second: int, i: int)
    requires 0 < first <= ni && 0 < second <= nj && StandsOn(ni, nj, (second - 1) * ni + first, first - 1, i)
    ensures first <= ni - 1 && second <= nj - 1
  {
    FirstNodeExact(ni, i, first - 1, second - 1);
    RowColumn(ni, i);
    ColumnInRange(ni, nj, i);
  }

  /** What the row and column constructor leaves is the position of an element exactly when it is given one's row and
      column. */
  lemma {:induction false} PairExact(ni: nat, nj: nat, first: int, second: int, base: int, res: int)
    requires 0 < first <= ni && 0 < second <= nj && base == (second - 1) * ni + first && res == first - 1
    ensures OnSomeElement(ni, nj, base, res) <==> first <= ni - 1 && second <= nj - 1
    ensures first <= ni - 1 && second <= nj - 1 ==> StandsOn(ni, nj, base, res, (second - 1) * (ni - 1) + first)
  {
    hide StandsOn;
    if i :| StandsOn(ni, nj, base, res, i) {
      ElementOfPair(ni, nj, first, second, i);
    }
    if first <= ni - 1 && second <= nj - 1 {
      PairOfElement(ni, nj, first, second);
    }
  }

  /** A pair in the last row of nodes passes the assertions, but no element is there. */
  lemma {:induction false} LastRowHasNoElement(ni: nat, nj: nat, second: int)
    requires ni >= 1 && 0 < second <= nj
    ensures !OnSomeElement(ni, nj, (second - 1) * ni + ni, ni - 1)
  {
    PairExact(ni, nj, ni, second, (second - 1) * ni + ni, ni - 1);
  }

  /** Neither is there one in the last column, where the next column's nodes lie outside the grid. */
  lemma {:induction false} LastColumnHasNoElement(ni: nat, nj: nat, first: int)
    requires nj >= 1 && 0 < first <= ni
    ensures !OnSomeElement(ni, nj, (nj - 1) * ni + first, first - 1)
    ensures (nj - 1) * ni + first + ni > ni * nj
  {
    PairExact(ni, nj, first, nj, (nj - 1) * ni + first, first - 1);
    Distribute(nj - 1, 1, ni);
    assert nj * ni == ni * nj;
  }

  /** Walking a grid from its first element visits every element number once, in order. */
  method Walk(ni: nat, nj: nat) returns (ids: seq<int>)
    requires ni >= 2 && nj >= 2
    ensures |ids| == (ni - 1) * (nj - 1) && forall n :: 0 <= n < |ids| ==> ids[n] == n + 1
  {
    var total := (ni - 1) * (nj - 1);
    MulMono(1, nj - 1, ni - 1);
    assert (nj - 1) * (ni - 1) == total;
    var e := new GridEnumerator(ni, nj, 1);
    ids := [];
    while |ids| < total
      invariant |ids| <= total && e.ni == ni && e.At(|ids| + 1) && fresh(e)
      invariant forall n :: 0 <= n < |ids| ==> ids[n] == n + 1
    {
      var r := e.Id(|ids| + 1);
      e.Next(|ids| + 1);
      ids := ids + [r];
    }
  }
}
