/** The two constant tables of the codec: the dibit interleave matrix and the 8x8 encoder
    state transition table, with the structural facts the rest of the codec relies on. */
module TrellisTables {
  import opened CodingBase

  // The interleave matrix, one line of the table per constant. Line r holds the dibit indices
  // 8m + 2r and 8m + 2r + 1 for m = 0, 1, ...
  const InterleaveLine0: seq<int> :=
    [0, 1, 8, 9, 16, 17, 24, 25, 32, 33, 40, 41, 48, 49, 56, 57, 64, 65, 72, 73, 80, 81, 88, 89, 96, 97]
  const InterleaveLine1: seq<int> :=
    [2, 3, 10, 11, 18, 19, 26, 27, 34, 35, 42, 43, 50, 51, 58, 59, 66, 67, 74, 75, 82, 83, 90, 91]
  const InterleaveLine2: seq<int> :=
    [4, 5, 12, 13, 20, 21, 28, 29, 36, 37, 44, 45, 52, 53, 60, 61, 68, 69, 76, 77, 84, 85, 92, 93]
  const InterleaveLine3: seq<int> :=
    [6, 7, 14, 15, 22, 23, 30, 31, 38, 39, 46, 47, 54, 55, 62, 63, 70, 71, 78, 79, 86, 87, 94, 95]

  // The encoder state transition table, one row per state.
  const StateRow0: seq<int> := [0, 8, 4, 12, 2, 10, 6, 14]
  const StateRow1: seq<int> := [4, 12, 2, 10, 6, 14, 0, 8]
  const StateRow2: seq<int> := [1, 9, 5, 13, 3, 11, 7, 15]
  const StateRow3: seq<int> := [5, 13, 3, 11, 7, 15, 1, 9]
  const StateRow4: seq<int> := [3, 11, 7, 15, 1, 9, 5, 13]
  const StateRow5: seq<int> := [7, 15, 1, 9, 5, 13, 3, 11]
  const StateRow6: seq<int> := [2, 10, 6, 14, 0, 8, 4, 12]
  const StateRow7: seq<int> := [6, 14, 0, 8, 4, 12, 2, 10]

  /** Encoder state transition table, row-major: entry state * 8 + tribit is the
      constellation point sent when the encoder is in `state` and emits `tribit`.
      TransitionTableIsSourceTable shows it is the eight rows above laid end to end. */
  const TransitionTable: seq<int> :=
    seq(64, i requires 0 <= i < 64 => Transition(i / 8, i % 8))

  /** The point sent when the encoder is in `state` and emits `tribit`: entry
      state * 8 + tribit of the table (see TransitionInTable). */
  function Transition(state: int, tribit: int): int
    requires IsTribit(state) && IsTribit(tribit)
  {
    StateRow(state)[tribit]
  }

  /** Parity of every point in a state's row: states 0, 1, 6 and 7 send even points,
      states 2 to 5 odd ones. */
  function StateParity(state: int): int
  {
    if state == 0 || state == 1 || state == 6 || state == 7 then 0 else 1
  }

  /** First entry of line `line` of the interleave matrix: line 0 has 26 entries, lines 1
      to 3 have 24. */
  function LineStart(line: nat): nat
    requires line < 4
  {
    if line == 0 then 0 else 26 + 24 * (line - 1)
  }

  /** The line of the interleave matrix that entry i belongs to. */
  function LineOf(i: nat): (line: nat)
    ensures line < 4
  {
    if i < 26 then 0 else if i < 50 then 1 else if i < 74 then 2 else 3
  }

  /** Closed form of the matrix entry i: the j-th entry of line r is 8 * (j / 2) + 2r + j % 2. */
  function InterleaveIndex(i: nat): nat
    requires i < DibitsLength
  {
    var line := LineOf(i);
    var j := i - LineStart(line);
    8 * (j / 2) + 2 * line + j % 2
  }

  /** Position in the received frame of deinterleaved dibit k (the inverse of the matrix). */
  function InterleavePosition(k: nat): (i: nat)
    requires k < DibitsLength
    ensures i < DibitsLength
  {
    var r := k % 8;
    LineStart(r / 2) + 2 * (k / 8) + r % 2
  }

  /** Dibit interleave matrix: dibit i of the received frame is dibit InterleaveMatrix[i] of
      the deinterleaved frame. InterleaveMatrixIsSourceTable shows it is the four lines above
      laid end to end. */
  const InterleaveMatrix: seq<int> :=
    seq(DibitsLength, i requires 0 <= i < DibitsLength => InterleaveIndex(i))

  lemma InterleaveLine0ClosedForm(j: nat)
    requires j < 26
    ensures InterleaveLine0[j] == 8 * (j / 2) + j % 2
  {
    assert j in {0, 1, 2, 3, 4, 5, 6, 7, 8, 9, 10, 11, 12, 13, 14, 15, 16, 17, 18, 19, 20, 21, 22, 23, 24, 25};
  }

  lemma InterleaveLinesClosedForm(j: nat)
    requires j < 24
    ensures InterleaveLine1[j] == 8 * (j / 2) + 2 + j % 2
    ensures InterleaveLine2[j] == 8 * (j / 2) + 4 + j % 2
    ensures InterleaveLine3[j] == 8 * (j / 2) + 6 + j % 2
  {
    assert j in {0, 1, 2, 3, 4, 5, 6, 7, 8, 9, 10, 11, 12, 13, 14, 15, 16, 17, 18, 19, 20, 21, 22, 23};
  }

  lemma InterleaveLineLengths()
    ensures |InterleaveLine0| == 26 && |InterleaveLine1| == 24
    ensures |InterleaveLine2| == 24 && |InterleaveLine3| == 24
  {
  }

  /** The closed form is the interleave table as written: its four lines laid end to end. */
  lemma InterleaveMatrixIsSourceTable()
    ensures InterleaveMatrix == InterleaveLine0 + InterleaveLine1 + InterleaveLine2 + InterleaveLine3
  {
    InterleaveLineLengths();
    var m := InterleaveMatrix;
    forall j | 0 <= j < 26
      ensures m[j] == InterleaveLine0[j]
    {
      InterleaveLine0ClosedForm(j);
    }
    forall j | 0 <= j < 24
      ensures m[26 + j] == InterleaveLine1[j]
      ensures m[50 + j] == InterleaveLine2[j]
      ensures m[74 + j] == InterleaveLine3[j]
    {
      InterleaveLinesClosedForm(j);
    }
    assert m[..26] == InterleaveLine0;
    assert m[26..50] == InterleaveLine1;
    assert m[50..74] == InterleaveLine2;
    assert m[74..] == InterleaveLine3;
    assert m == m[..26] + m[26..50] + m[50..74] + m[74..];
  }

  lemma DivModTwo(m: nat, b: nat)
    requires b < 2
    ensures (2 * m + b) / 2 == m && (2 * m + b) % 2 == b
  {
  }

  lemma DivModEight(m: nat, r: nat)
    requires r < 8
    ensures (8 * m + r) / 8 == m && (8 * m + r) % 8 == r
  {
  }

  /** Entry 2m + b of line `line` holds dibit index 8m + 2 * line + b, and that index is
      sent back to the entry: the two closed forms meet on the decomposition. */
  lemma InterleaveDecomposed(line: nat, m: nat, b: nat)
    requires line < 4 && b < 2 && LineStart(line) + 2 * m + b < DibitsLength
    requires line < 3 ==> LineStart(line) + 2 * m + b < LineStart(line + 1)
    ensures 8 * m + 2 * line + b < DibitsLength
    ensures InterleaveIndex(LineStart(line) + 2 * m + b) == 8 * m + 2 * line + b
    ensures InterleavePosition(8 * m + 2 * line + b) == LineStart(line) + 2 * m + b
  {
    assert LineOf(LineStart(line) + 2 * m + b) == line;
    DivModTwo(m, b);
    DivModTwo(line, b);
    DivModEight(m, 2 * line + b);
  }

  lemma PositionOfIndex(i: nat)
    requires i < DibitsLength
    ensures InterleaveIndex(i) < DibitsLength
    ensures InterleavePosition(InterleaveIndex(i)) == i
  {
    var line := LineOf(i);
    var j := i - LineStart(line);
    InterleaveDecomposed(line, j / 2, j % 2);
  }

  lemma IndexOfPosition(k: nat)
    requires k < DibitsLength
    ensures InterleavePosition(k) < DibitsLength
    ensures InterleaveIndex(InterleavePosition(k)) == k
  {
    var r := k % 8;
    InterleaveDecomposed(r / 2, k / 8, r % 2);
  }

  /** The matrix has one entry per dibit of the frame, and every entry is a dibit index. */
  lemma InterleaveMatrixInRange()
    ensures |InterleaveMatrix| == DibitsLength
    ensures forall i :: 0 <= i < DibitsLength ==> 0 <= InterleaveMatrix[i] < DibitsLength
  {
    forall i | 0 <= i < DibitsLength
      ensures 0 <= InterleaveMatrix[i] < DibitsLength
    {
      PositionOfIndex(i);
    }
  }

  /** InterleavePosition undoes the matrix on both sides: it sends every entry back to where
      it stands, and every index stands at its InterleavePosition. */
  lemma InterleaveMatrixInverse()
    ensures |InterleaveMatrix| == DibitsLength
    ensures forall i :: 0 <= i < DibitsLength ==> InterleavePosition(InterleaveMatrix[i]) == i
    ensures forall k :: 0 <= k < DibitsLength ==> InterleaveMatrix[InterleavePosition(k)] == k
  {
    InterleaveMatrixInRange();
    forall i | 0 <= i < DibitsLength
      ensures InterleavePosition(InterleaveMatrix[i]) == i
    {
      PositionOfIndex(i);
    }
    forall k | 0 <= k < DibitsLength
      ensures InterleaveMatrix[InterleavePosition(k)] == k
    {
      IndexOfPosition(k);
    }
  }

  /** The 98 entries of the interleave matrix are the indices 0..97, each exactly once. */
  lemma InterleaveMatrixIsPermutation()
    ensures |InterleaveMatrix| == DibitsLength
    ensures forall i :: 0 <= i < DibitsLength ==> 0 <= InterleaveMatrix[i] < DibitsLength
    ensures forall i, j :: 0 <= i < j < DibitsLength ==> InterleaveMatrix[i] != InterleaveMatrix[j]
    ensures forall k :: 0 <= k < DibitsLength ==> k in InterleaveMatrix
  {
    InterleaveMatrixInRange();
    InterleaveMatrixInverse();
    forall k | 0 <= k < DibitsLength
      ensures k in InterleaveMatrix
    {
      assert InterleaveMatrix[InterleavePosition(k)] == k;
    }
  }

  /** Row `state` of the transition table. */
  function StateRow(state: int): (row: seq<int>)
    requires IsTribit(state)
    ensures |row| == 8
  {
    match state
    case 0 => StateRow0
    case 1 => StateRow1
    case 2 => StateRow2
    case 3 => StateRow3
    case 4 => StateRow4
    case 5 => StateRow5
    case 6 => StateRow6
    case 7 => StateRow7
  }

  lemma StateRowLengths()
    ensures |StateRow0| == |StateRow1| == |StateRow2| == |StateRow3| == 8
    ensures |StateRow4| == |StateRow5| == |StateRow6| == |StateRow7| == 8
  {
  }

  /** The flat table and the rows agree: row_start + tribit indexes the row of the state. */
  lemma TransitionInTable(state: int, tribit: int)
    requires IsTribit(state) && IsTribit(tribit)
    ensures |TransitionTable| == 64
    ensures TransitionTable[state * 8 + tribit] == Transition(state, tribit)
  {
    DivModEight(state, tribit);
  }

  /** The flat table is the transition table as written: its eight rows laid end to end. */
  lemma TransitionTableIsSourceTable()
    ensures TransitionTable
         == StateRow0 + StateRow1 + StateRow2 + StateRow3 + StateRow4 + StateRow5 + StateRow6 + StateRow7
  {
    StateRowLengths();
    var r0, r1, r2, r3 := StateRow0, StateRow1, StateRow2, StateRow3;
    var r4, r5, r6, r7 := StateRow4, StateRow5, StateRow6, StateRow7;
    var t := r0 + r1 + r2 + r3 + r4 + r5 + r6 + r7;
    forall i | 0 <= i < 64
      ensures TransitionTable[i] == t[i]
    {
      var state, tribit := i / 8, i % 8;
      assert i == state * 8 + tribit;
      if state == 0 { assert t[i] == r0[tribit]; }
      else if state == 1 { assert t[i] == r1[tribit]; }
      else if state == 2 { assert t[i] == r2[tribit]; }
      else if state == 3 { assert t[i] == r3[tribit]; }
      else if state == 4 { assert t[i] == r4[tribit]; }
      else if state == 5 { assert t[i] == r5[tribit]; }
      else if state == 6 { assert t[i] == r6[tribit]; }
      else { assert t[i] == r7[tribit]; }
    }
  }

  /** Every entry is a constellation point whose parity is fixed by the row. */
  lemma TransitionParity(state: int, tribit: int)
    requires IsTribit(state) && IsTribit(tribit)
    ensures IsPoint(Transition(state, tribit))
    ensures Transition(state, tribit) % 2 == StateParity(state)
  {
    assert state in {0, 1, 2, 3, 4, 5, 6, 7};
    assert tribit in {0, 1, 2, 3, 4, 5, 6, 7};
  }

  /** Within one row the eight entries are pairwise distinct. */
  lemma TransitionRowInjective(state: int, c1: int, c2: int)
    requires IsTribit(state) && IsTribit(c1) && IsTribit(c2)
    requires Transition(state, c1) == Transition(state, c2)
    ensures c1 == c2
  {
    assert state in {0, 1, 2, 3, 4, 5, 6, 7};
    assert c1 in {0, 1, 2, 3, 4, 5, 6, 7};
    assert c2 in {0, 1, 2, 3, 4, 5, 6, 7};
  }
}
