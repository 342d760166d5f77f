/** The trellis state machine of the rate 3/4 code: decoding constellation points into
    tribits by scanning the current state's row of the transition table, and encoding
    tribits into points by table lookup. */
module TrellisStateMachine {
  import opened CodingBase
  import opened TrellisTables

  /** The last column c < n of the row of `state` holding `point`, as the decoder's scan over
      the columns 0, 1, ..., n - 1 leaves it; None when no such column holds it. */
  function LastMatchBelow(state: Byte, point: Byte, n: nat): (r: Option<Byte>)
    requires IsTribit(state) && n <= 8
    ensures r.Some? ==> r.value < n && Transition(state, r.value) == point
    ensures r.Some? ==> forall c :: r.value < c < n ==> Transition(state, c) != point
    ensures r.None? ==> forall c :: 0 <= c < n ==> Transition(state, c) != point
  {
    if n == 0 then None
    else if Transition(state, n - 1) == point then Some(n - 1)
    else LastMatchBelow(state, point, n - 1)
  }

  /** The column matching `point` in the row of `state`: both the decoded tribit and the
      next state. */
  function NextState(state: Byte, point: Byte): Option<Byte>
    requires IsTribit(state)
  {
    LastMatchBelow(state, point, 8)
  }

  /** Every point of the right parity appears in the row of `state`. */
  lemma RowCoversParityClass(state: Byte, point: Byte)
    requires IsTribit(state) && IsPoint(point) && point % 2 == StateParity(state)
    ensures exists c :: 0 <= c < 8 && Transition(state, c) == point
  {
    var row := StateRow(state);
    assert point in row by {
      if StateParity(state) == 0 {
        assert point in {0, 2, 4, 6, 8, 10, 12, 14};
        assert state in {0, 1, 6, 7};
      } else {
        assert point in {1, 3, 5, 7, 9, 11, 13, 15};
        assert state in {2, 3, 4, 5};
      }
    }
    var c :| 0 <= c < 8 && row[c] == point;
    assert Transition(state, c) == point;
  }

  /** The point sent from `state` for tribit c decodes, from that state, to c. */
  lemma NextStateOfTransition(state: Byte, c: Byte)
    requires IsTribit(state) && IsTribit(c)
    ensures NextState(state, Transition(state, c) as Byte) == Some(c)
  {
    TransitionParity(state, c);
    var r := NextState(state, Transition(state, c) as Byte);
    if r != Some(c) {
      TransitionRowInjective(state, c, r.value);
    }
  }

  /** A point is decodable from `state` exactly when it is a constellation point of the row's
      parity, and then the column found is the only one holding it, so scanning for the last
      match or the first gives the same result. */
  lemma NextStateSpec(state: Byte, point: Byte)
    requires IsTribit(state)
    ensures NextState(state, point).Some? <==> IsPoint(point) && point % 2 == StateParity(state)
    ensures forall c :: 0 <= c < 8 ==> (NextState(state, point) == Some(c) <==> Transition(state, c) == point)
  {
    var r := NextState(state, point);
    if r.Some? {
      TransitionParity(state, r.value);
      forall c | 0 <= c < 8 && Transition(state, c) == point ensures c == r.value {
        TransitionRowInjective(state, c, r.value);
      }
    } else if IsPoint(point) && point % 2 == StateParity(state) {
      RowCoversParityClass(state, point);
    }
  }

  /** Decoding from state 0: the tribits of every point so far and the state reached, or None
      as soon as one point has no matching column in the current row. */
  function DecodeRun(points: seq<Byte>): (r: Option<(seq<Byte>, Byte)>)
    ensures r.Some? ==> |r.value.0| == |points| && AllTribits(r.value.0) && IsTribit(r.value.1)
    ensures r.Some? ==> r.value.1 == if points == [] then 0 else r.value.0[|points| - 1]
  {
    if points == [] then Some(([], 0))
    else match DecodeRun(points[..|points| - 1])
      case None => None
      case Some((tribits, state)) =>
        match NextState(state, points[|points| - 1])
        case None => None
        case Some(c) => Some((tribits + [c], c))
  }

  /** The tribits of a frame of points, or None for a corrupted frame. */
  function Decode(points: seq<Byte>): (r: Option<seq<Byte>>)
    ensures r.Some? ==> |r.value| == |points| && AllTribits(r.value)
  {
    match DecodeRun(points)
    case None => None
    case Some((tribits, _)) => Some(tribits)
  }

  /** Encoding from state 0: the point sent for each tribit and the state reached. */
  function EncodeRun(tribits: seq<Byte>): (r: (seq<Byte>, Byte))
    requires AllTribits(tribits)
    ensures |r.0| == |tribits| && AllPoints(r.0) && IsTribit(r.1)
    ensures r.1 == if tribits == [] then 0 else tribits[|tribits| - 1]
  {
    if tribits == [] then ([], 0)
    else
      var (points, state) := EncodeRun(tribits[..|tribits| - 1]);
      var t := tribits[|tribits| - 1];
      TransitionParity(state, t);
      (points + [Transition(state, t)], t)
  }

  /** The points of a tribit sequence followed by the terminator point, column 0 of the row
      of the state reached. */
  function Terminated(tribits: seq<Byte>): (points: seq<Byte>)
    requires AllTribits(tribits)
    ensures |points| == |tribits| + 1 && AllPoints(points)
  {
    var (points, state) := EncodeRun(tribits);
    TransitionParity(state, 0);
    points + [Transition(state, 0)]
  }

  /** The 49 points of a frame of 48 payload tribits. */
  function Encode(tribits: seq<Byte>): (points: seq<Byte>)
    requires |tribits| == PayloadTribits && AllTribits(tribits)
    ensures |points| == PointsLength && AllPoints(points)
  {
    Terminated(tribits)
  }

  /** The encoder as trellis.c writes it: every cell of the tribit buffer, which the decoder
      fills with 49 tribits, is encoded, and one more point is stored after them. */
  function EncodeTribitBuffer(buffer: seq<Byte>): (points: seq<Byte>)
    requires |buffer| == TribitsLength && AllTribits(buffer)
    ensures |points| == PointsLength + 1
  {
    Terminated(buffer)
  }

  /** Even when the last cell of the buffer holds 0, the as-written encoder stores 50 points:
      the 49 of the intended encoding and a 50th, past the end of a 49-point buffer. */
  lemma TribitBufferEncodingOverruns(buffer: seq<Byte>)
    requires |buffer| == TribitsLength && AllTribits(buffer) && buffer[PayloadTribits] == 0
    ensures EncodeTribitBuffer(buffer) == Encode(buffer[..PayloadTribits]) + [0]
  {
    var payload := buffer[..PayloadTribits];
    assert payload + [0] == buffer;
    var (head, state) := EncodeRun(payload);
    TransitionParity(state, 0);
    assert EncodeRun(buffer) == (head + [Transition(state, 0)], 0);
    assert Transition(0, 0) == 0;
  }

  /** Decoding the points of any tribit sequence recovers it and the state reached. */
  lemma {:induction false} DecodeRunOfEncodeRun(tribits: seq<Byte>)
    requires AllTribits(tribits)
    ensures DecodeRun(EncodeRun(tribits).0) == Some((tribits, EncodeRun(tribits).1))
    decreases |tribits|
  {
    if tribits != [] {
      var prefix := tribits[..|tribits| - 1];
      var t := tribits[|tribits| - 1];
      assert prefix + [t] == tribits;
      DecodeRunOfEncodeRun(prefix);
      var sent := EncodeRun(prefix);
      var point := Transition(sent.1, t);
      var all := sent.0 + [point];
      assert EncodeRun(tribits) == (all, t);
      assert all[..|all| - 1] == sent.0;
      NextStateOfTransition(sent.1, t);
    }
  }

  /** Conversely, a successful decode is undone by encoding: the points are exactly the
      ones the encoder sends for the decoded tribits. */
  lemma {:induction false} EncodeRunOfDecodeRun(points: seq<Byte>)
    requires DecodeRun(points).Some?
    ensures EncodeRun(DecodeRun(points).value.0) == (points, DecodeRun(points).value.1)
    decreases |points|
  {
    if points != [] {
      var prefix := points[..|points| - 1];
      var p := points[|points| - 1];
      assert prefix + [p] == points;
      EncodeRunOfDecodeRun(prefix);
      var (tribits, state) := DecodeRun(prefix).value;
      var c := NextState(state, p).value;
      assert DecodeRun(points).value == (tribits + [c], c);
      var all := tribits + [c];
      assert all[..|all| - 1] == tribits;
      assert EncodeRun(all) == (prefix + [Transition(state, c) as Byte], c);
    }
  }

  /** Decode after encode: the 48 payload tribits come back, followed by the terminator
      tribit 0. */
  lemma DecodeAfterEncode(tribits: seq<Byte>)
    requires |tribits| == PayloadTribits && AllTribits(tribits)
    ensures Decode(Encode(tribits)) == Some(tribits + [0])
  {
    var (points, state) := EncodeRun(tribits);
    DecodeRunOfEncodeRun(tribits);
    TransitionParity(state, 0);
    NextStateSpec(state, Transition(state, 0));
    var all := Encode(tribits);
    assert all[..|all| - 1] == points;
  }

  /** Encode after decode: a frame that decodes is the encoding of its 48 payload tribits
      exactly when its terminator tribit is 0. */
  lemma EncodeAfterDecode(points: seq<Byte>)
    requires |points| == PointsLength && Decode(points).Some?
    ensures var tribits := Decode(points).value;
      |tribits| == PointsLength && AllTribits(tribits) &&
      (Encode(tribits[..PayloadTribits]) == points <==> tribits[PayloadTribits] == 0)
  {
    var tribits := DecodeRun(points).value.0;
    EncodeRunOfDecodeRun(points);
    var payload := tribits[..PayloadTribits];
    var last := tribits[PayloadTribits];
    assert payload + [last] == tribits;
    var (head, state) := EncodeRun(payload);
    assert EncodeRun(tribits) == (head + [Transition(state, last)], last);
    TransitionParity(state, 0);
    if Encode(payload) == points {
      assert Transition(state, 0) == Transition(state, last);
      TransitionRowInjective(state, 0, last);
    }
  }

  /** One more tribit: the encoding of a prefix extends by the point sent for the tribit
      from the state reached. */
  lemma EncodeRunStep(tribits: seq<Byte>, i: nat, done: seq<Byte>, state: Byte)
    requires i < |tribits| && AllTribits(tribits)
    requires AllTribits(tribits[..i]) && EncodeRun(tribits[..i]) == (done, state)
    ensures AllTribits(tribits[..i + 1]) && IsTribit(state) && IsTribit(tribits[i])
    ensures EncodeRun(tribits[..i + 1]) == (done + [Transition(state, tribits[i]) as Byte], tribits[i])
  {
    assert tribits[..i + 1][..i] == tribits[..i];
    TransitionParity(state, tribits[i]);
  }

  /** One more point: the decoding of a prefix extends by the column matching the point in
      the row of the state reached, or fails when there is none. */
  lemma DecodeRunStep(points: seq<Byte>, i: nat, done: seq<Byte>, state: Byte)
    requires i < |points| && DecodeRun(points[..i]) == Some((done, state))
    ensures DecodeRun(points[..i + 1])
         == match NextState(state, points[i])
            case None => None
            case Some(c) => Some((done + [c], c))
  {
    assert points[..i + 1][..i] == points[..i];
  }

  /** Once a prefix fails to decode, so does every extension of it. */
  lemma {:induction false} DecodeFailurePersists(points: seq<Byte>, i: nat)
    requires i <= |points| && DecodeRun(points[..i]).None?
    ensures DecodeRun(points).None?
    decreases |points| - i
  {
    if i < |points| {
      assert points[..i + 1][..i] == points[..i];
      DecodeFailurePersists(points, i + 1);
    } else {
      assert points[..i] == points;
    }
  }

  /** Corruption detection: a point outside the constellation, or of the wrong parity for
      the state reached before it, fails the whole frame. */
  lemma CorruptPointFailsFrame(points: seq<Byte>, i: nat)
    requires i < |points| && DecodeRun(points[..i]).Some?
    requires var state := DecodeRun(points[..i]).value.1;
      !IsPoint(points[i]) || points[i] % 2 != StateParity(state)
    ensures Decode(points).None?
  {
    var prefix := points[..i + 1];
    assert prefix[..i] == points[..i];
    NextStateSpec(DecodeRun(points[..i]).value.1, points[i]);
    assert DecodeRun(prefix).None?;
    DecodeFailurePersists(points, i + 1);
  }

  /** The all-zero payload stays in state 0 and is sent as 49 zero points. */
  lemma {:induction false} ZeroTribitsEncodeToZeroPoints(n: nat)
    ensures EncodeRun(seq(n, _ => 0)) == (seq(n, _ => 0), 0)
    ensures Terminated(seq(n, _ => 0)) == seq(n + 1, _ => 0)
  {
    if n > 0 {
      ZeroTribitsEncodeToZeroPoints(n - 1);
      assert seq(n, _ => 0)[..n - 1] == seq(n - 1, _ => 0);
    }
  }

  /** The decoder's scan of the row of `state` for `point`: every column holding the point
      overwrites the result, so the last match wins. Returns whether a column matched and the
      new state, which is `state` itself when none did. */
  method ScanRow(state: Byte, point: Byte) returns (matched: bool, next: Byte)
    requires IsTribit(state)
    ensures matched <==> NextState(state, point).Some?
    ensures matched ==> next == NextState(state, point).value
    ensures !matched ==> next == state
  {
    var rowStart := state * 8;
    next := state;
    matched := false;
    for j := rowStart to rowStart + 8
      invariant IsTribit(next)
      invariant matched <==> LastMatchBelow(state, point, j - rowStart).Some?
      invariant matched ==> next == LastMatchBelow(state, point, j - rowStart).value
      invariant !matched ==> next == state
    {
      TransitionInTable(state, j - rowStart);
      if point as int == TransitionTable[j] {
        matched := true;
        next := j - rowStart;
      }
    }
  }

  /** Decodes the 49 points of a burst into 49 tribits, or returns None when some point has
      no matching column in the row of the current state. */
  method ExtractTribits(points: array<Byte>) returns (r: Option<array<Byte>>)
    requires points.Length == PointsLength
    ensures r.None? <==> Decode(points[..]).None?
    ensures r.Some? ==> r.value.Length == TribitsLength && Decode(points[..]) == Some(r.value[..])
  {
    var tribits := new Byte[TribitsLength];
    var lastState: Byte := 0;
    for i := 0 to PointsLength
      invariant IsTribit(lastState)
      invariant DecodeRun(points[..i]) == Some((tribits[..i], lastState))
    {
      DecodeRunStep(points[..], i, tribits[..i], lastState);
      assert points[..][..i + 1] == points[..i + 1];
      var matched, next := ScanRow(lastState, points[i]);
      if !matched {
        DecodeFailurePersists(points[..], i + 1);
        return None;
      }
      lastState := next;
      tribits[i] := lastState;
      assert tribits[..i + 1] == tribits[..i] + [lastState];
    }
    assert points[..PointsLength] == points[..];
    assert tribits[..TribitsLength] == tribits[..];
    return Some(tribits);
  }

  /** Encodes the 48 payload tribits of a burst into 49 points, the last one the terminator. */
  method ConstructConstellationPoints(tribits: array<Byte>) returns (points: array<Byte>)
    requires tribits.Length == PayloadTribits && AllTribits(tribits[..])
    ensures points.Length == PointsLength
    ensures points[..] == Encode(tribits[..])
  {
    points := new Byte[PointsLength];
    var lastState: Byte := 0;
    var i := 0;
    while i < PayloadTribits
      invariant 0 <= i <= PayloadTribits
      invariant EncodeRun(tribits[..i]) == (points[..i], lastState)
    {
      var rowStart := lastState * 8;
      EncodeRunStep(tribits[..], i, points[..i], lastState);
      assert tribits[..][..i + 1] == tribits[..i + 1];
      TransitionInTable(lastState, tribits[i]);
      TransitionParity(lastState, tribits[i]);
      points[i] := TransitionTable[rowStart + tribits[i]];
      lastState := tribits[i];
      assert points[..i + 1] == points[..i] + [points[i]];
      i := i + 1;
    }
    TransitionInTable(lastState, 0);
    TransitionParity(lastState, 0);
    points[i] := TransitionTable[lastState * 8];
    assert tribits[..PayloadTribits] == tribits[..];
    assert points[..PointsLength] == points[..i] + [points[i]];
    assert points[..PointsLength] == points[..];
  }
}
