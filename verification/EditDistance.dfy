/**
 The Levenshtein matrix of the fuzzy matcher. On equal characters the code takes the diagonal
 without trying the alternatives; the result is still the length of the shortest sequence of
 single-character insertions, deletions and substitutions, whatever their positions and order.
 */
module EditDistance {
  function Min(a: int, b: int): int {
    if a <= b then a else b
  }

  function Max(a: int, b: int): int {
    if a >= b then a else b
  }

  /** The matrix cell for the first `i` characters of `a` and the first `j` characters of `b`. */
  function Cell(a: string, i: nat, b: string, j: nat): nat
    requires i <= |a| && j <= |b|
    decreases i + j
  {
    if i == 0 then j
    else if j == 0 then i
    else if b[j - 1] == a[i - 1] then Cell(a, i - 1, b, j - 1)
    else Min(Cell(a, i - 1, b, j - 1) + 1, Min(Cell(a, i - 1, b, j) + 1, Cell(a, i, b, j - 1) + 1))
  }

  function Distance(a: string, b: string): nat {
    Cell(a, |a|, b, |b|)
  }

  method Levenshtein(a: string, b: string) returns (distance: nat)
    ensures distance == Distance(a, b)
  {
    var matrix := new nat[|b| + 1, |a| + 1];
    for i := 0 to |b| + 1
      invariant forall k :: 0 <= k < i ==> matrix[k, 0] == k
    {
      matrix[i, 0] := i;
    }
    for j := 0 to |a| + 1
      invariant forall k :: 0 < k <= |b| ==> matrix[k, 0] == k
      invariant matrix[0, 0] == 0
      invariant forall l :: 0 <= l < j ==> matrix[0, l] == l
    {
      matrix[0, j] := j;
    }
    for i := 1 to |b| + 1
      invariant forall k :: 0 <= k <= |b| ==> matrix[k, 0] == k
      invariant forall k, l {:trigger matrix[k, l]} :: 0 <= k < i && 0 <= l <= |a| ==> matrix[k, l] == Cell(a, l, b, k)
    {
      for j := 1 to |a| + 1
        invariant forall k :: 0 <= k <= |b| ==> matrix[k, 0] == k
        invariant forall k, l {:trigger matrix[k, l]} :: 0 <= k < i && 0 <= l <= |a| ==>
                    matrix[k, l] == Cell(a, l, b, k)
        invariant forall l {:trigger matrix[i, l]} :: 0 <= l < j ==> matrix[i, l] == Cell(a, l, b, i)
      {
        matrix[i, j] :=
          if b[i - 1] == a[j - 1] then matrix[i - 1, j - 1]
          else Min(matrix[i - 1, j - 1] + 1, Min(matrix[i, j - 1] + 1, matrix[i - 1, j] + 1));
      }
    }
    return matrix[|b|, |a|];
  }

  // ---------------------------------------------------------------------------------------
  // The shortcut on equal characters loses nothing
  // ---------------------------------------------------------------------------------------

  /** The cost of aligning two characters. */
  function Cost(c: char, d: char): nat {
    if c == d then 0 else 1
  }

  /** The arithmetic of one cell and the three before it. */
  lemma NeighboursStayNear(cell: int, diagonal: int, up: int, left: int, cost: nat)
    requires -1 <= up - diagonal <= 1 && -1 <= left - diagonal <= 1
    requires cell == if cost == 0 then diagonal else Min(diagonal + 1, Min(up + 1, left + 1))
    ensures -1 <= cell - up <= 1 && -1 <= cell - left <= 1
  {
  }

  lemma {:induction false} RowsAdjacent(a: string, i: nat, b: string, j: nat)
    requires 0 < i <= |a| && j <= |b|
    ensures -1 <= Cell(a, i, b, j) - Cell(a, i - 1, b, j) <= 1
    decreases i + j
  {
    if j > 0 {
      ColumnsAdjacent(a, i - 1, b, j);
      RowsAdjacent(a, i, b, j - 1);
      NeighboursStayNear(Cell(a, i, b, j), Cell(a, i - 1, b, j - 1), Cell(a, i - 1, b, j), Cell(a, i, b, j - 1),
                         Cost(a[i - 1], b[j - 1]));
    }
  }

  lemma {:induction false} ColumnsAdjacent(a: string, i: nat, b: string, j: nat)
    requires i <= |a| && 0 < j <= |b|
    ensures -1 <= Cell(a, i, b, j) - Cell(a, i, b, j - 1) <= 1
    decreases i + j
  {
    if i > 0 {
      ColumnsAdjacent(a, i - 1, b, j);
      RowsAdjacent(a, i, b, j - 1);
      NeighboursStayNear(Cell(a, i, b, j), Cell(a, i - 1, b, j - 1), Cell(a, i - 1, b, j), Cell(a, i, b, j - 1),
                         Cost(a[i - 1], b[j - 1]));
    }
  }

  /** Neighbouring cells differ by at most one. */
  lemma AdjacentCells(a: string, i: nat, b: string, j: nat)
    requires i <= |a| && j <= |b|
    ensures i > 0 ==> -1 <= Cell(a, i, b, j) - Cell(a, i - 1, b, j) <= 1
    ensures j > 0 ==> -1 <= Cell(a, i, b, j) - Cell(a, i, b, j - 1) <= 1
  {
    if i > 0 {
      RowsAdjacent(a, i, b, j);
    }
    if j > 0 {
      ColumnsAdjacent(a, i, b, j);
    }
  }

  predicate Least(cell: int, diagonal: int, up: int, left: int, cost: nat) {
    cell == Min(diagonal + cost, Min(up, left) + 1)
  }

  lemma ShortcutIsLeast(cell: int, diagonal: int, up: int, left: int, cost: nat)
    requires -1 <= up - diagonal <= 1 && -1 <= left - diagonal <= 1
    requires cell == if cost == 0 then diagonal else Min(diagonal + 1, Min(up + 1, left + 1))
    requires cost <= 1
    ensures Least(cell, diagonal, up, left, cost)
  {
  }

  /** Every cell is the least over all three predecessors, also where the code looks at one. */
  lemma CellIsLeast(a: string, i: nat, b: string, j: nat)
    requires 0 < i <= |a| && 0 < j <= |b|
    ensures Least(Cell(a, i, b, j), Cell(a, i - 1, b, j - 1), Cell(a, i - 1, b, j), Cell(a, i, b, j - 1),
                  Cost(a[i - 1], b[j - 1]))
  {
    AdjacentCells(a, i - 1, b, j);
    AdjacentCells(a, i, b, j - 1);
    ShortcutIsLeast(Cell(a, i, b, j), Cell(a, i - 1, b, j - 1), Cell(a, i - 1, b, j), Cell(a, i, b, j - 1),
                    Cost(a[i - 1], b[j - 1]));
  }

  /** What the last step to a cell was. */
  datatype Move = Inserting | Deleting | Aligning

  ghost predicate ReachedBy(move: Move, a: string, i: nat, b: string, j: nat)
    requires i <= |a| && j <= |b|
  {
    match move
    case Inserting => j > 0 && Cell(a, i, b, j) == Cell(a, i, b, j - 1) + 1
    case Deleting => i > 0 && Cell(a, i, b, j) == Cell(a, i - 1, b, j) + 1
    case Aligning => i > 0 && j > 0 && Cell(a, i, b, j) == Cell(a, i - 1, b, j - 1) + Cost(a[i - 1], b[j - 1])
  }

  lemma LastMove(a: string, i: nat, b: string, j: nat) returns (move: Move)
    requires i <= |a| && j <= |b| && i + j > 0
    ensures ReachedBy(move, a, i, b, j)
  {
    if i == 0 {
      move := Inserting;
    } else if j == 0 {
      move := Deleting;
    } else {
      CellIsLeast(a, i, b, j);
      move :=
        if Cell(a, i, b, j) == Cell(a, i, b, j - 1) + 1 then Inserting
        else if Cell(a, i, b, j) == Cell(a, i - 1, b, j) + 1 then Deleting
        else Aligning;
    }
  }

  // ---------------------------------------------------------------------------------------
  // A metric
  // ---------------------------------------------------------------------------------------

  lemma {:induction false} CellZero(a: string, i: nat, b: string, j: nat)
    requires i <= |a| && j <= |b|
    ensures Cell(a, i, b, j) == 0 <==> a[..i] == b[..j]
    decreases i
  {
    if i > 0 && j > 0 {
      CellZero(a, i - 1, b, j - 1);
      assert a[..i] == a[..i - 1] + [a[i - 1]] && b[..j] == b[..j - 1] + [b[j - 1]];
    }
  }

  lemma ZeroIffEqual(a: string, b: string)
    ensures Distance(a, b) == 0 <==> a == b
  {
    CellZero(a, |a|, b, |b|);
    assert a[..|a|] == a && b[..|b|] == b;
  }

  lemma {:induction false} CellSymmetric(a: string, i: nat, b: string, j: nat)
    requires i <= |a| && j <= |b|
    ensures Cell(a, i, b, j) == Cell(b, j, a, i)
    decreases i + j
  {
    if i > 0 && j > 0 {
      CellSymmetric(a, i - 1, b, j - 1);
      CellSymmetric(a, i - 1, b, j);
      CellSymmetric(a, i, b, j - 1);
    }
  }

  lemma Symmetric(a: string, b: string)
    ensures Distance(a, b) == Distance(b, a)
  {
    CellSymmetric(a, |a|, b, |b|);
  }

  lemma {:induction false} CellBounds(a: string, i: nat, b: string, j: nat)
    requires i <= |a| && j <= |b|
    ensures Max(i - j, j - i) <= Cell(a, i, b, j) <= Max(i, j)
    decreases i + j
  {
    if i > 0 && j > 0 {
      CellBounds(a, i - 1, b, j - 1);
      CellBounds(a, i - 1, b, j);
      CellBounds(a, i, b, j - 1);
    }
  }

  /** The distance lies between the difference of the lengths and the longer length. */
  lemma LengthBounds(a: string, b: string)
    ensures Max(|a| - |b|, |b| - |a|) <= Distance(a, b) <= Max(|a|, |b|)
  {
    CellBounds(a, |a|, b, |b|);
  }

  /** The last steps of the two legs, and of the direct way, make one of six shorter triangles decide. */
  lemma LastSteps(
    ab: int, abUp: int, abLeft: int, abDiagonal: int, abCost: nat,
    bc: int, bcUp: int, bcLeft: int, bcDiagonal: int, bcCost: nat,
    ac: int, acUp: int, acLeft: int, acDiagonal: int, acCost: nat
  )
    requires Least(ab, abDiagonal, abUp, abLeft, abCost) && Least(bc, bcDiagonal, bcUp, bcLeft, bcCost)
    requires Least(ac, acDiagonal, acUp, acLeft, acCost) && acCost <= abCost + bcCost && bcCost <= 1
    requires acUp <= abUp + bc && acLeft <= ab + bcLeft && ac <= abLeft + bcUp
    requires acLeft <= abLeft + bcDiagonal && acUp <= abDiagonal + bcUp && acDiagonal <= abDiagonal + bcDiagonal
    ensures ac <= ab + bc
  {
  }

  ghost predicate Bounded(m: (int, int) -> int, i: int, j: int) {
    Max(i - j, j - i) <= m(i, j) <= Max(i, j)
  }

  ghost predicate StepsTo(m: (int, int) -> int, a: string, i: int, b: string, j: int)
    requires 0 < i <= |a| && 0 < j <= |b|
  {
    Least(m(i, j), m(i - 1, j - 1), m(i - 1, j), m(i, j - 1), Cost(a[i - 1], b[j - 1]))
  }

  /** What the triangle inequality needs to know of a finished matrix. */
  ghost predicate IsMatrix(m: (int, int) -> int, a: string, b: string) {
    && (forall i, j :: 0 <= i <= |a| && 0 <= j <= |b| ==> Bounded(m, i, j))
    && (forall i, j :: 0 < i <= |a| && 0 < j <= |b| ==> StepsTo(m, a, i, b, j))
  }

  ghost function Matrix(a: string, b: string): (m: (int, int) -> int)
    ensures IsMatrix(m, a, b)
  {
    var m := (i: int, j: int) => if 0 <= i <= |a| && 0 <= j <= |b| then Cell(a, i, b, j) as int else 0;
    assert forall i, j :: 0 <= i <= |a| && 0 <= j <= |b| ==> Bounded(m, i, j) by {
      forall i, j | 0 <= i <= |a| && 0 <= j <= |b|
        ensures Bounded(m, i, j)
      {
        CellBounds(a, i, b, j);
      }
    }
    assert forall i, j :: 0 < i <= |a| && 0 < j <= |b| ==> StepsTo(m, a, i, b, j) by {
      forall i, j | 0 < i <= |a| && 0 < j <= |b|
        ensures StepsTo(m, a, i, b, j)
      {
        CellIsLeast(a, i, b, j);
      }
    }
    m
  }

  lemma {:induction false} MatrixTriangle(
    ab: (int, int) -> int, bc: (int, int) -> int, ac: (int, int) -> int,
    a: string, i: nat, b: string, j: nat, c: string, k: nat
  )
    requires IsMatrix(ab, a, b) && IsMatrix(bc, b, c) && IsMatrix(ac, a, c)
    requires i <= |a| && j <= |b| && k <= |c|
    ensures ac(i, k) <= ab(i, j) + bc(j, k)
    decreases i + j + k
  {
    if i == 0 || j == 0 || k == 0 {
      assert Bounded(ab, i, j) && Bounded(bc, j, k) && Bounded(ac, i, k);
    } else {
      assert StepsTo(ab, a, i, b, j) && StepsTo(bc, b, j, c, k) && StepsTo(ac, a, i, c, k);
      MatrixTriangle(ab, bc, ac, a, i - 1, b, j, c, k);
      MatrixTriangle(ab, bc, ac, a, i, b, j, c, k - 1);
      MatrixTriangle(ab, bc, ac, a, i, b, j - 1, c, k);
      MatrixTriangle(ab, bc, ac, a, i, b, j - 1, c, k - 1);
      MatrixTriangle(ab, bc, ac, a, i - 1, b, j - 1, c, k);
      MatrixTriangle(ab, bc, ac, a, i - 1, b, j - 1, c, k - 1);
      LastSteps(
        ab(i, j), ab(i - 1, j), ab(i, j - 1), ab(i - 1, j - 1), Cost(a[i - 1], b[j - 1]),
        bc(j, k), bc(j - 1, k), bc(j, k - 1), bc(j - 1, k - 1), Cost(b[j - 1], c[k - 1]),
        ac(i, k), ac(i - 1, k), ac(i, k - 1), ac(i - 1, k - 1), Cost(a[i - 1], c[k - 1]));
    }
  }

  lemma Triangle(a: string, b: string, c: string)
    ensures Distance(a, c) <= Distance(a, b) + Distance(b, c)
  {
    MatrixTriangle(Matrix(a, b), Matrix(b, c), Matrix(a, c), a, |a|, b, |b|, c, |c|);
  }

  // ---------------------------------------------------------------------------------------
  // The shortest sequence of single-character edits
  // ---------------------------------------------------------------------------------------

  datatype Edit =
    | Insert(at: nat, ch: char)
    | Delete(at: nat)
    | Substitute(at: nat, ch: char)

  predicate Applies(e: Edit, s: string) {
    if e.Insert? then e.at <= |s| else e.at < |s|
  }

  function Apply(e: Edit, s: string): string
    requires Applies(e, s)
  {
    match e
    case Insert(at, ch) => s[..at] + [ch] + s[at..]
    case Delete(at) => s[..at] + s[at + 1..]
    case Substitute(at, ch) => s[..at] + [ch] + s[at + 1..]
  }

  /** Performing the edits one after the other turns `a` into `b`. */
  ghost predicate Turns(edits: seq<Edit>, a: string, b: string) {
    if edits == [] then a == b else Applies(edits[0], a) && Turns(edits[1..], Apply(edits[0], a), b)
  }

  /** A cell depends on the two prefixes only. */
  lemma {:induction false} CellOfPrefixes(a: string, a': string, i: nat, b: string, b': string, j: nat)
    requires i <= |a| && i <= |a'| && j <= |b| && j <= |b'|
    requires forall k :: 0 <= k < i ==> a[k] == a'[k]
    requires forall k :: 0 <= k < j ==> b[k] == b'[k]
    ensures Cell(a, i, b, j) == Cell(a', i, b', j)
    decreases i + j
  {
    if i > 0 && j > 0 {
      CellOfPrefixes(a, a', i - 1, b, b', j - 1);
      CellOfPrefixes(a, a', i - 1, b, b', j);
      CellOfPrefixes(a, a', i, b, b', j - 1);
    }
  }

  lemma {:induction false} CommonTail(x: string, y: string, tail: string, k: nat)
    requires k <= |tail|
    ensures Cell(x + tail, |x| + k, y + tail, |y| + k) == Distance(x, y)
    decreases k
  {
    if k == 0 {
      CellOfPrefixes(x + tail, x, |x|, y + tail, y, |y|);
    } else {
      CommonTail(x, y, tail, k - 1);
    }
  }

  lemma SameOrExtended(x: string, before: string, after: string)
    requires before == x || (|before| == |x| + 1 && before[..|x|] == x)
    requires after == x || (|after| == |x| + 1 && after[..|x|] == x)
    ensures Distance(before, after) <= 1
  {
    assert before[..|x|] == x == after[..|x|];
    CellZero(before, |x|, after, |x|);
    if |before| == |x| {
      AdjacentCells(before, |x|, after, |after|);
    } else {
      AdjacentCells(before, |before|, after, |x|);
    }
  }

  /** One edit replaces at most one character by at most one character. */
  lemma OneEdit(e: Edit, s: string)
    requires Applies(e, s)
    ensures Distance(s, Apply(e, s)) <= 1
  {
    var x := s[..e.at];
    var before := if e.Insert? then x else x + [s[e.at]];
    var after := if e.Delete? then x else x + [e.ch];
    var tail := s[|before|..];
    assert s == before + tail && Apply(e, s) == after + tail;
    CommonTail(before, after, tail, |tail|);
    SameOrExtended(x, before, after);
  }

  /** No sequence of edits from `a` to `b` is shorter than the distance. */
  lemma {:induction false} NoShorterScript(edits: seq<Edit>, a: string, b: string)
    requires Turns(edits, a, b)
    ensures Distance(a, b) <= |edits|
  {
    if edits == [] {
      ZeroIffEqual(a, b);
    } else {
      var next := Apply(edits[0], a);
      NoShorterScript(edits[1..], next, b);
      OneEdit(edits[0], a);
      Triangle(a, next, b);
    }
  }

  lemma ApplyBefore(e: Edit, s: string, tail: string)
    requires Applies(e, s)
    ensures Applies(e, s + tail) && Apply(e, s + tail) == Apply(e, s) + tail
  {
    match e
    case Insert(at, ch) =>
      assert (s + tail)[..at] == s[..at] && (s + tail)[at..] == s[at..] + tail;
    case Delete(at) =>
      assert (s + tail)[..at] == s[..at] && (s + tail)[at + 1..] == s[at + 1..] + tail;
    case Substitute(at, ch) =>
      assert (s + tail)[..at] == s[..at] && (s + tail)[at + 1..] == s[at + 1..] + tail;
  }

  /** Edits keep their effect when a suffix is put behind the string. */
  lemma {:induction false} TurnsBefore(edits: seq<Edit>, a: string, b: string, tail: string)
    requires Turns(edits, a, b)
    ensures Turns(edits, a + tail, b + tail)
  {
    if edits != [] {
      var e := edits[0];
      ApplyBefore(e, a, tail);
      TurnsBefore(edits[1..], Apply(e, a), b, tail);
    }
  }

  lemma {:induction false} TurnsThen(edits: seq<Edit>, a: string, b: string, e: Edit)
    requires Turns(edits, a, b) && Applies(e, b)
    ensures Turns(edits + [e], a, Apply(e, b))
  {
    if edits == [] {
      assert edits + [e] == [e];
    } else {
      TurnsThen(edits[1..], Apply(edits[0], a), b, e);
      assert (edits + [e])[1..] == edits[1..] + [e];
    }
  }

  /** The edits turn the one prefix into the other, and are as many as the cell says. */
  ghost predicate IsScript(edits: seq<Edit>, a: string, i: nat, b: string, j: nat)
    requires i <= |a| && j <= |b|
  {
    Turns(edits, a[..i], b[..j]) && |edits| == Cell(a, i, b, j)
  }

  /** Some sequence of edits between two prefixes is exactly as long as their cell says. */
  lemma {:induction false} CellScript(a: string, i: nat, b: string, j: nat) returns (edits: seq<Edit>)
    requires i <= |a| && j <= |b|
    ensures IsScript(edits, a, i, b, j)
    decreases i + j, 1
  {
    if i == 0 && j == 0 {
      edits := [];
      assert a[..0] == b[..0];
    } else {
      var move := LastMove(a, i, b, j);
      edits := ScriptBy(move, a, i, b, j);
    }
  }

  /** The shorter script that the last move tells of, and that move. */
  lemma {:induction false} ScriptBy(move: Move, a: string, i: nat, b: string, j: nat) returns (edits: seq<Edit>)
    requires i <= |a| && j <= |b| && ReachedBy(move, a, i, b, j)
    ensures IsScript(edits, a, i, b, j)
    decreases i + j, 0
  {
    match move
    case Inserting =>
      var shorter := CellScript(a, i, b, j - 1);
      edits := InsertLast(a, i, b, j, shorter);
    case Deleting =>
      var shorter := CellScript(a, i - 1, b, j);
      edits := DeleteLast(a, i, b, j, shorter);
    case Aligning =>
      var shorter := CellScript(a, i - 1, b, j - 1);
      edits := AlignLast(a, i, b, j, shorter);
  }

  lemma InsertLast(a: string, i: nat, b: string, j: nat, edits: seq<Edit>) returns (more: seq<Edit>)
    requires i <= |a| && 0 < j <= |b| && IsScript(edits, a, i, b, j - 1)
    requires ReachedBy(Inserting, a, i, b, j)
    ensures IsScript(more, a, i, b, j)
  {
    var e := Insert(j - 1, b[j - 1]);
    assert Apply(e, b[..j - 1]) == b[..j];
    TurnsThen(edits, a[..i], b[..j - 1], e);
    more := edits + [e];
  }

  lemma DeleteLast(a: string, i: nat, b: string, j: nat, edits: seq<Edit>) returns (more: seq<Edit>)
    requires 0 < i <= |a| && j <= |b| && IsScript(edits, a, i - 1, b, j)
    requires ReachedBy(Deleting, a, i, b, j)
    ensures IsScript(more, a, i, b, j)
  {
    var e := Delete(i - 1);
    assert Apply(e, a[..i]) == a[..i - 1];
    more := [e] + edits;
    assert more[1..] == edits;
  }

  lemma AlignLast(a: string, i: nat, b: string, j: nat, edits: seq<Edit>) returns (more: seq<Edit>)
    requires 0 < i <= |a| && 0 < j <= |b| && IsScript(edits, a, i - 1, b, j - 1)
    requires ReachedBy(Aligning, a, i, b, j)
    ensures IsScript(more, a, i, b, j)
  {
    var x, y, c, d := a[..i - 1], b[..j - 1], a[i - 1], b[j - 1];
    assert a[..i] == x + [c] && b[..j] == y + [d];
    more := AlignChars(x, c, y, d, edits);
  }

  lemma AlignChars(x: string, c: char, y: string, d: char, edits: seq<Edit>) returns (more: seq<Edit>)
    requires Turns(edits, x, y)
    ensures Turns(more, x + [c], y + [d]) && |more| == |edits| + Cost(c, d)
  {
    TurnsBefore(edits, x, y, [c]);
    more := edits;
    if c != d {
      var e := Substitute(|y|, d);
      assert Apply(e, y + [c]) == y + [d];
      TurnsThen(edits, x + [c], y + [c], e);
      more := edits + [e];
    }
  }

  /** `b` can be reached from `a` by at most `n` single-character edits. */
  ghost predicate WithinEdits(a: string, b: string, n: int) {
    exists edits :: Turns(edits, a, b) && |edits| <= n
  }

  /** The distance is the length of the shortest script: it is reached, and never undercut. */
  lemma DistanceIsShortest(a: string, b: string, n: int)
    ensures WithinEdits(a, b, n) <==> Distance(a, b) <= n
  {
    var shortest := CellScript(a, |a|, b, |b|);
    assert a[..|a|] == a && b[..|b|] == b;
    forall edits | Turns(edits, a, b)
      ensures Distance(a, b) <= |edits|
    {
      NoShorterScript(edits, a, b);
    }
  }
}
