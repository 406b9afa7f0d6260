/** The differential coding of requested indexes (src/blockencodings.h:38-68). */
module CompactIndexes {
  import opened Wrappers

  const MAX_UINT16: int := 65535
  const TWO_64: int := 0x1_0000_0000_0000_0000

  ghost predicate Increasing(indexes: seq<int>) {
    forall i, j | 0 <= i < j < |indexes| :: indexes[i] < indexes[j]
  }

  ghost predicate Are16Bit(indexes: seq<int>) {
    forall i | 0 <= i < |indexes| :: 0 <= indexes[i] <= 65535
  }

  /** What stands on the wire for an index: the gap to the one before, as an unsigned 64-bit number. */
  ghost function Gap(indexes: seq<int>, i: nat): int
    requires i < |indexes|
  {
    (indexes[i] - (if i == 0 then 0 else indexes[i - 1] + 1)) % 0x1_0000_0000_0000_0000
  }

  method Write(indexes: seq<int>) returns (wire: seq<int>)
    ensures IsWritten(indexes, wire)
  {
    wire := [];
    for i := 0 to |indexes|
      invariant |wire| == i && forall j | 0 <= j < i :: wire[j] == Gap(indexes, j)
    {
      var index := (indexes[i] - (if i == 0 then 0 else indexes[i - 1] + 1)) % TWO_64;
      wire := wire + [index];
    }
  }

  /** The index a wire stands for: the gaps up to it, one apart. */
  ghost function Value(wire: seq<int>, i: nat): int
    requires i < |wire|
  {
    wire[i] + if i == 0 then 0 else Value(wire, i - 1) + 1
  }

  ghost predicate In16Bits(wire: seq<int>) {
    forall i: nat | i < |wire| :: Value(wire, i) <= 65535
  }

  /** Reading throws exactly if some index goes past 16 bits. */
  method Read(wire: seq<int>) returns (r: Result<seq<int>>)
    requires forall i | 0 <= i < |wire| :: wire[i] >= 0
    ensures r.Ok? <==> In16Bits(wire)
    ensures r.Ok? ==> |r.value| == |wire| && forall i: nat | i < |wire| :: r.value[i] == Value(wire, i)
  {
    var indexes := [];
    for i := 0 to |wire|
      invariant indexes == wire[..i]
    {
      if wire[i] > MAX_UINT16 {
        assert Value(wire, i) > MAX_UINT16 by {
          ValueIsNat(wire, i);
        }
        return Thrown;
      }
      indexes := indexes + [wire[i]];
    }
    var offset := 0;
    for j := 0 to |indexes|
      invariant |indexes| == |wire| && forall i | j <= i < |wire| :: indexes[i] == wire[i]
      invariant forall i: nat | i < j :: indexes[i] == Value(wire, i) <= MAX_UINT16
      invariant offset == if j == 0 then 0 else Value(wire, j - 1) + 1
    {
      if indexes[j] + offset > MAX_UINT16 {
        assert Value(wire, j) > MAX_UINT16;
        return Thrown;
      }
      indexes := indexes[j := indexes[j] + offset];
      offset := indexes[j] + 1;
    }
    return Ok(indexes);
  }

  lemma {:induction false} ValueIsNat(wire: seq<int>, i: nat)
    requires i < |wire| && forall k | 0 <= k < |wire| :: wire[k] >= 0
    ensures Value(wire, i) >= wire[i]
  {
    if i > 0 {
      ValueIsNat(wire, i - 1);
    }
  }

  lemma {:induction false} ValuesIncrease(wire: seq<int>, i: nat, j: nat)
    requires i < j < |wire| && forall k | 0 <= k < |wire| :: wire[k] >= 0
    ensures Value(wire, i) < Value(wire, j)
  {
    if i < j - 1 {
      ValuesIncrease(wire, i, j - 1);
    }
  }

  /** Whatever is read increases strictly and stays within 16 bits. */
  lemma ReadIncreases(wire: seq<int>, indexes: seq<int>)
    requires In16Bits(wire) && forall k | 0 <= k < |wire| :: wire[k] >= 0
    requires |indexes| == |wire| && forall i: nat | i < |wire| :: indexes[i] == Value(wire, i)
    ensures Increasing(indexes) && Are16Bit(indexes)
  {
    forall i, j | 0 <= i < j < |indexes| ensures indexes[i] < indexes[j] {
      ValuesIncrease(wire, i, j);
    }
    forall i | 0 <= i < |indexes| ensures 0 <= indexes[i] <= MAX_UINT16 {
      ValueIsNat(wire, i);
    }
  }

  ghost predicate IsWritten(indexes: seq<int>, wire: seq<int>) {
    |wire| == |indexes| && forall i: nat | i < |indexes| :: wire[i] == Gap(indexes, i)
  }

  /** Strictly increasing indexes read back as they were written. */
  lemma {:induction false} ReadWritten(indexes: seq<int>, wire: seq<int>, i: nat)
    requires Are16Bit(indexes) && Increasing(indexes) && IsWritten(indexes, wire) && i < |indexes|
    ensures Value(wire, i) == indexes[i]
  {
    assert i > 0 ==> indexes[i - 1] < indexes[i];
    if i > 0 {
      ReadWritten(indexes, wire, i - 1);
    }
  }

  /** Reading what was written gives the same indexes exactly if they increase strictly; otherwise it throws. */
  lemma RoundTrip(indexes: seq<int>, wire: seq<int>)
    requires Are16Bit(indexes) && IsWritten(indexes, wire)
    ensures In16Bits(wire) <==> Increasing(indexes)
    ensures In16Bits(wire) ==> forall i: nat | i < |indexes| :: Value(wire, i) == indexes[i]
  {
    if Increasing(indexes) {
      forall i: nat | i < |indexes| ensures Value(wire, i) == indexes[i] {
        ReadWritten(indexes, wire, i);
      }
    } else {
      Descent(indexes);
      var i :| 0 < i < |indexes| && indexes[i] <= indexes[i - 1];
      assert wire[i] == indexes[i] - indexes[i - 1] - 1 + TWO_64;
      ValueIsNat(wire, i);
    }
  }

  /** A sequence that does not increase strictly has a step that does not. */
  lemma {:induction false} Descent(indexes: seq<int>)
    requires !Increasing(indexes)
    ensures exists i :: 0 < i < |indexes| && indexes[i] <= indexes[i - 1]
  {
    var n := |indexes| - 1;
    if Increasing(indexes[..n]) {
      var i :| 0 <= i < n && indexes[i] >= indexes[n];
      assert i < n - 1 ==> indexes[..n][i] < indexes[..n][n - 1];
      assert indexes[n] <= indexes[n - 1];
    } else {
      Descent(indexes[..n]);
      var i :| 0 < i < |indexes[..n]| && indexes[..n][i] <= indexes[..n][i - 1];
      assert indexes[i] <= indexes[i - 1];
    }
  }

  /** What is read writes back as the wire it came from. */
  lemma WriteRead(wire: seq<int>, indexes: seq<int>)
    requires In16Bits(wire) && forall k | 0 <= k < |wire| :: wire[k] >= 0
    requires |indexes| == |wire| && forall i: nat | i < |wire| :: indexes[i] == Value(wire, i)
    ensures IsWritten(indexes, wire)
  {
    hide Gap;
    forall i: nat | i < |wire| ensures wire[i] == Gap(indexes, i) {
      ValueIsNat(wire, i);
      GapIs(indexes, i, wire[i]);
    }
  }

  lemma GapIs(indexes: seq<int>, i: nat, gap: int)
    requires i < |indexes| && 0 <= gap <= 65535 && indexes[i] == gap + if i == 0 then 0 else indexes[i - 1] + 1
    ensures gap == Gap(indexes, i)
  {
  }
}
