/** The wire format of the resource messages: base 128 varints,
    length-delimited records and the skipping of unknown fields (Protocol Buffers
    encoding specification, sections "Base 128 Varints" and "Length-Delimited
    Records").

    The functions say what bytes mean; the methods are the source's loops. */
module Wire {
  import opened Wrappers
  import opened Powers

  type byte = x: int | 0 <= x < 256

  type bytes = seq<byte>

  const U64: nat := 0x1_0000_0000_0000_0000
  // lengths and indices at or above this are negative as Go ints
  const NEGATIVE: nat := 0x8000_0000_0000_0000

  datatype WireError =
    | IntOverflow | UnexpectedEOF | InvalidLength
    | EndGroup | IllegalTag | WrongWireType
    | UnexpectedEndOfGroup | IllegalWireType

  // ---------------------------------------------------------------------
  // Varints
  // ---------------------------------------------------------------------

  function Varint(v: nat): (r: bytes)
    ensures |r| > 0
  {
    if v < 128 then [v] else [v % 128 + 128] + Varint(v / 128)
  }

  /** bits.Len64. */
  function BitLen(x: nat): nat {
    if x == 0 then 0 else 1 + BitLen(x / 2)
  }

  /** sovResource: the number of bytes of a varint. */
  function Sov(x: nat): nat {
    (BitLen(if x % 2 == 0 then x + 1 else x) + 6) / 7
  }

  lemma {:induction false} BitLenOdd(x: nat)
    requires x > 0 && x % 2 == 0
    ensures BitLen(x + 1) == BitLen(x)
  {
  }

  lemma BitLenSeven(x: nat)
    requires x >= 128
    ensures BitLen(x) == 7 + BitLen(x / 128)
  {
    var a, b, c := x / 2, x / 4, x / 8;
    var d, e, f := x / 16, x / 32, x / 64;
    assert a / 2 == b && b / 2 == c && c / 2 == d && d / 2 == e && e / 2 == f && f / 2 == x / 128;
    assert BitLen(x) == 1 + BitLen(a) && BitLen(a) == 1 + BitLen(b);
    assert BitLen(b) == 1 + BitLen(c) && BitLen(c) == 1 + BitLen(d);
    assert BitLen(d) == 1 + BitLen(e) && BitLen(e) == 1 + BitLen(f);
  }

  lemma BitLenSmall(x: nat)
    requires 0 < x < 128
    ensures 1 <= BitLen(x) <= 7
  {
    var a, b, c := x / 2, x / 4, x / 8;
    var d, e, f := x / 16, x / 32, x / 64;
    assert a / 2 == b && b / 2 == c && c / 2 == d && d / 2 == e && e / 2 == f && f / 2 == 0;
    assert BitLen(f) <= 1 && BitLen(e) <= 2 && BitLen(d) <= 3;
    assert BitLen(c) <= 4 && BitLen(b) <= 5 && BitLen(a) <= 6;
  }

  /** The size computed from the bit length is the number of bytes written. */
  lemma {:induction false} SovIsLength(v: nat)
    ensures Sov(v) == |Varint(v)|
  {
    if v > 0 && v % 2 == 0 {
      BitLenOdd(v);
    }
    if v < 128 {
      if v > 0 {
        BitLenSmall(v);
      }
    } else {
      SovIsLength(v / 128);
      BitLenSeven(v);
      if v / 128 % 2 == 0 {
        BitLenOdd(v / 128);
      }
    }
  }

  /** Shifting left in a 64-bit register: the highest bit falls out. */
  function Shl(x: nat, k: nat): (r: nat)
    requires x < U64
    ensures r < U64
  {
    if k == 0 then x
    else
      var y := 2 * Shl(x, k - 1);
      if y < U64 then y else y - U64
  }

  /** The bits a byte contributes at a shift. */
  function Bits(b: byte, shift: nat): nat {
    Shl(b % 128, shift)
  }

  /** The decoding loop that began at `start`, from byte `i` on and with what it
      has gathered so far; the shift grows by seven with every byte. */
  function ReadVarintFrom(d: bytes, start: nat, i: nat, acc: nat): (r: Result<(nat, nat), WireError>)
    requires start <= i
    ensures r.Ok? ==> i < r.value.1 <= |d|
    decreases |d| - i
  {
    var shift := 7 * (i - start);
    if shift >= 64 then Err(IntOverflow)
    else if i >= |d| then Err(UnexpectedEOF)
    else
      var acc' := acc + Bits(d[i], shift);
      if d[i] < 128 then Ok((acc', i + 1))
      else ReadVarintFrom(d, start, i + 1, acc')
  }

  function ReadVarint(d: bytes, i: nat): (r: Result<(nat, nat), WireError>)
    ensures r.Ok? ==> i < r.value.1 <= |d|
  {
    ReadVarintFrom(d, i, i, 0)
  }

  lemma SubSlice(d: bytes, i: nat, n: nat, k: nat, m: nat)
    requires i <= n <= |d| && k <= m <= n - i
    ensures d[i..n][k..m] == d[i + k..i + m]
  {
    var a, b := d[i..n][k..m], d[i + k..i + m];
    assert |a| == |b|;
    forall t | 0 <= t < |a| ensures a[t] == b[t] {
      assert a[t] == d[i..n][k + t];
      assert b[t] == d[(i + k) + t];
    }
  }

  /** `d` from `i` and `e` from `j` on hold the same `n` bytes. */
  predicate Agree(d: bytes, i: nat, e: bytes, j: nat, n: nat)
    decreases n
  {
    && i + n <= |d| && j + n <= |e|
    && (n > 0 ==> d[i] == e[j] && Agree(d, i + 1, e, j + 1, n - 1))
  }

  lemma {:induction false} AgreeIsSlice(d: bytes, i: nat, e: bytes, j: nat, n: nat)
    requires i + n <= |d| && j + n <= |e|
    ensures Agree(d, i, e, j, n) <==> d[i..i + n] == e[j..j + n]
    decreases n
  {
    if n > 0 {
      AgreeIsSlice(d, i + 1, e, j + 1, n - 1);
      assert d[i..i + n] == [d[i]] + d[i + 1..i + n];
      assert e[j..j + n] == [e[j]] + e[j + 1..j + n];
      var x, y := d[i..i + n], e[j..j + n];
      assert x[0] == d[i] && y[0] == e[j] && x[1..] == d[i + 1..i + n] && y[1..] == e[j + 1..j + n];
    }
  }

  lemma AgreeTail(d: bytes, i: nat, e: bytes, j: nat, n: nat, k: nat, m: nat)
    requires Agree(d, i, e, j, n) && k + m <= n
    ensures Agree(d, i + k, e, j + k, m)
  {
    AgreeIsSlice(d, i, e, j, n);
    AgreeIsSlice(d, i + k, e, j + k, m);
    SubSlice(d, i, i + n, k, k + m);
    SubSlice(e, j, j + n, k, k + m);
  }

  /** `d` holds `s` at `i`. */
  predicate Holds(d: bytes, i: nat, s: bytes) {
    i + |s| <= |d| && d[i..i + |s|] == s
  }

  lemma HoldsPart(d: bytes, i: nat, s: bytes, k: nat, m: nat)
    requires Holds(d, i, s) && k <= m <= |s|
    ensures Holds(d, i + k, s[k..m]) && d[i + k..i + m] == s[k..m]
  {
    SubSlice(d, i, i + |s|, k, m);
  }

  lemma ScaleStep(v: nat, shift: nat)
    ensures v * Pow2(shift) == (v % 128) * Pow2(shift) + (v / 128) * Pow2(shift + 7)
  {
    Pow2Seven(shift);
    var q, r, w := v / 128, v % 128, Pow2(shift);
    assert v == r + q * 128;
    assert (r + q * 128) * w == r * w + (q * 128) * w;
    MulAssociates(q, 128, w);
  }

  lemma Pow2Seven(shift: nat)
    ensures Pow2(shift + 7) == 128 * Pow2(shift)
  {
    Pow2Splits(shift, 7);
    assert Pow2(7) == 128 by {
      assert Pow2(3) == 8;
      Pow2Splits(3, 3);
      assert Pow2(6) == 64;
    }
  }

  lemma Pow2At64()
    ensures Pow2(64) == U64
  {
    assert Pow2(4) == 16;
    Pow2Splits(4, 4);
    assert Pow2(8) == 256;
    Pow2Splits(8, 8);
    Pow2Splits(16, 16);
    Pow2Splits(32, 32);
  }

  lemma ShiftFits(v: nat, shift: nat)
    requires v * Pow2(shift) < U64 && v > 0
    ensures shift < 64
  {
    if 64 <= shift {
      Pow2At64();
      if 64 < shift {
        Pow2Increases(64, shift);
      }
      MulMonotone(1, v, Pow2(shift));
      assert false;
    }
  }

  lemma BitsFit(b: byte, v: nat, shift: nat)
    requires v * Pow2(shift) < U64 && b % 128 == v % 128
    ensures Bits(b, shift) == (v % 128) * Pow2(shift)
  {
    MulMonotone(v % 128, v, Pow2(shift));
    ShlFits(v % 128, shift);
  }

  /** What does not reach the end of the register is not cut off. */
  lemma {:induction false} ShlFits(x: nat, k: nat)
    requires x < U64 && x * Pow2(k) < U64
    ensures Shl(x, k) == x * Pow2(k)
    decreases k
  {
    if k > 0 {
      assert x * Pow2(k) == 2 * (x * Pow2(k - 1)) by {
        MulAssociates(2, x, Pow2(k - 1));
        MulAssociates(x, 2, Pow2(k - 1));
      }
      ShlFits(x, k - 1);
    }
  }

  lemma {:induction false} ReadWrittenFrom(d: bytes, start: nat, i: nat, v: nat, acc: nat)
    requires start <= i
    requires Holds(d, i, Varint(v)) && v * Pow2(7 * (i - start)) < U64
    requires start < i ==> v > 0
    ensures ReadVarintFrom(d, start, i, acc) == Ok((acc + v * Pow2(7 * (i - start)), i + |Varint(v)|))
    decreases v
  {
    hide Bits, Pow2;
    var shift := 7 * (i - start);
    if shift > 0 {
      ShiftFits(v, shift);
    }
    var s := Varint(v);
    assert d[i] == s[0] by { assert d[i..i + |s|][0] == d[i]; }
    ScaleStep(v, shift);
    BitsFit(d[i], v, shift);
    if v >= 128 {
      var tail := Varint(v / 128);
      assert Holds(d, i + 1, tail) by {
        HoldsPart(d, i, s, 1, |s|);
        assert s[1..|s|] == tail;
      }
      assert shift + 7 == 7 * (i + 1 - start);
      ReadWrittenFrom(d, start, i + 1, v / 128, acc + Bits(d[i], shift));
    }
  }

  /** Every 64-bit value is read back as written. */
  lemma ReadWritten(d: bytes, i: nat, v: nat)
    requires Holds(d, i, Varint(v)) && v < U64
    ensures ReadVarint(d, i) == Ok((v, i + |Varint(v)|))
  {
    assert v * Pow2(7 * (i - i)) == v;
    ReadWrittenFrom(d, i, i, v, 0);
  }

  /** Reading depends on the bytes read only. */
  lemma {:induction false} ReadVarintMovesFrom(d: bytes, start: nat, i: nat, e: bytes, start': nat, j: nat, acc: nat)
    requires start <= i && start' <= j && i - start == j - start'
    requires var r := ReadVarintFrom(d, start, i, acc); r.Ok? && Agree(d, i, e, j, r.value.1 - i)
    ensures var r := ReadVarintFrom(d, start, i, acc);
            ReadVarintFrom(e, start', j, acc) == Ok((r.value.0, j + (r.value.1 - i)))
    decreases |d| - i
  {
    var n := ReadVarintFrom(d, start, i, acc).value.1 - i;
    if d[i] >= 128 {
      AgreeTail(d, i, e, j, n, 1, n - 1);
      ReadVarintMovesFrom(d, start, i + 1, e, start', j + 1, acc + Bits(d[i], 7 * (i - start)));
    }
  }

  lemma ReadVarintMoves(d: bytes, i: nat, e: bytes, j: nat)
    requires var r := ReadVarint(d, i); r.Ok? && Agree(d, i, e, j, r.value.1 - i)
    ensures var r := ReadVarint(d, i);
            ReadVarint(e, j) == Ok((r.value.0, j + (r.value.1 - i)))
  {
    ReadVarintMovesFrom(d, i, i, e, j, j, 0);
  }

  // ---------------------------------------------------------------------
  // Varints are written no longer than they were read
  // ---------------------------------------------------------------------

  lemma {:induction false} ShlBound(x: nat, k: nat)
    requires x < U64
    ensures Shl(x, k) <= x * Pow2(k)
    decreases k
  {
    if k > 0 {
      ShlBound(x, k - 1);
      MulAssociates(2, x, Pow2(k - 1));
      MulAssociates(x, 2, Pow2(k - 1));
    }
  }

  lemma BitsBound(b: byte, shift: nat, acc: nat)
    requires acc < Pow2(shift)
    ensures acc + Bits(b, shift) < Pow2(shift + 7)
  {
    hide Shl, Pow2;
    ShlBound(b % 128, shift);
    Pow2Seven(shift);
    MulMonotone(b % 128, 127, Pow2(shift));
  }

  lemma {:induction false} ReadBoundFrom(d: bytes, start: nat, i: nat, acc: nat)
    requires start <= i && acc < Pow2(7 * (i - start)) && ReadVarintFrom(d, start, i, acc).Ok?
    ensures var (v, n) := ReadVarintFrom(d, start, i, acc).value; v < Pow2(7 * (n - start))
    decreases |d| - i
  {
    hide Pow2, Bits;
    var shift := 7 * (i - start);
    BitsBound(d[i], shift, acc);
    assert 7 * (i + 1 - start) == shift + 7;
    if d[i] >= 128 {
      ReadBoundFrom(d, start, i + 1, acc + Bits(d[i], shift));
    }
  }

  lemma {:induction false} VarintBound(v: nat, k: nat)
    requires k >= 1 && v < Pow2(7 * k)
    ensures |Varint(v)| <= k
    decreases k
  {
    hide Pow2;
    Pow2Seven(7 * (k - 1));
    if v >= 128 {
      if k == 1 {
        assert Pow2(0) == 1 by { Pow2Zero(); }
        assert false;
      }
      VarintBound(v / 128, k - 1);
    }
  }

  lemma Pow2Zero()
    ensures Pow2(0) == 1
  {
  }

  /** The shortest varint of a value is no longer than what it was read from. */
  lemma ReadNoShorter(d: bytes, i: nat)
    requires ReadVarint(d, i).Ok?
    ensures var (v, n) := ReadVarint(d, i).value; |Varint(v)| <= n - i
  {
    Pow2Zero();
    ReadBoundFrom(d, i, i, 0);
    var (v, n) := ReadVarint(d, i).value;
    VarintBound(v, n - i);
  }

  lemma {:induction false} VarintMonotone(a: nat, b: nat)
    requires a <= b
    ensures |Varint(a)| <= |Varint(b)|
    decreases b
  {
    if a >= 128 {
      VarintMonotone(a / 128, b / 128);
    }
  }

  lemma {:induction false} VarintNext(a: nat)
    ensures |Varint(a + 1)| <= |Varint(a)| + 1
  {
    if a >= 128 {
      if (a + 1) / 128 != a / 128 {
        assert (a + 1) / 128 == a / 128 + 1;
        VarintNext(a / 128);
      }
    }
  }

  /** The varint of a sum is no longer than those of its parts together. */
  lemma {:induction false} VarintSum(a: nat, b: nat)
    ensures |Varint(a + b)| <= |Varint(a)| + |Varint(b)|
    decreases a + b
  {
    var x, y := a / 128, b / 128;
    assert (a + b) / 128 <= x + y + 1;
    if a + b >= 128 {
      VarintMonotone((a + b) / 128, x + y + 1);
      if a < 128 && b < 128 {
      } else if a < 128 {
        VarintNext(y);
      } else if b < 128 {
        VarintNext(x);
      } else {
        VarintSum(x, y + 1);
        VarintNext(y);
      }
    }
  }

  // ---------------------------------------------------------------------
  // Lengths and skipping
  // ---------------------------------------------------------------------

  /** A length prefix and the extent of what it announces. */
  function ReadExtent(d: bytes, i: nat): (r: Result<(nat, nat), WireError>)
    ensures r.Ok? ==> i < r.value.0 <= r.value.1 <= |d|
  {
    match ReadVarint(d, i)
    case Err(e) => Err(e)
    case Ok((v, s)) =>
      if v >= NEGATIVE || s + v >= NEGATIVE then Err(InvalidLength)
      else if s + v > |d| then Err(UnexpectedEOF)
      else Ok((s, s + v))
  }

  /** What follows one tag while skipping: the next index and the nesting. */
  function SkipOne(d: bytes, i: nat, wire: nat, depth: nat): (r: Result<(nat, nat), WireError>)
    ensures r.Ok? ==> i <= r.value.0
  {
    match wire
    case 0 => (match ReadVarint(d, i) case Err(e) => Err(e) case Ok((_, n)) => Ok((n, depth)))
    case 1 => Ok((i + 8, depth))
    case 2 =>
      (match ReadVarint(d, i)
       case Err(e) => Err(e)
       case Ok((v, n)) => if v >= NEGATIVE then Err(InvalidLength) else Ok((n + v, depth)))
    case 3 => Ok((i, depth + 1))
    case 4 => if depth == 0 then Err(UnexpectedEndOfGroup) else Ok((i, depth - 1))
    case 5 => Ok((i + 4, depth))
    case _ => Err(IllegalWireType)
  }

  /** skipResource on the bytes from `base` on, continuing at `i`.  Every turn
      consumes a tag, so it ends on every input. */
  function SkipFrom(d: bytes, base: nat, i: nat, depth: nat): (r: Result<nat, WireError>)
    requires base <= i
    ensures r.Ok? ==> i < r.value
    decreases |d| - i
  {
    if i >= |d| then Err(UnexpectedEOF)
    else
      match ReadVarint(d, i)
      case Err(e) => Err(e)
      case Ok((tag, n)) =>
        match SkipOne(d, n, tag % 8, depth)
        case Err(e) => Err(e)
        case Ok((next, depth')) =>
          if next - base >= NEGATIVE then Err(InvalidLength)
          else if depth' == 0 then Ok(next)
          else SkipFrom(d, base, next, depth')
  }

  lemma ReadExtentMoves(d: bytes, i: nat, e: bytes, j: nat)
    requires var r := ReadExtent(d, i); r.Ok? && Agree(d, i, e, j, r.value.1 - i)
    requires |e| < NEGATIVE
    ensures var r := ReadExtent(d, i);
            ReadExtent(e, j) == Ok((j + (r.value.0 - i), j + (r.value.1 - i)))
  {
    hide ReadVarint;
    var n := ReadExtent(d, i).value.0 - i;
    AgreeTail(d, i, e, j, ReadExtent(d, i).value.1 - i, 0, n);
    ReadVarintMoves(d, i, e, j);
  }

  lemma SkipOneMoves(d: bytes, i: nat, e: bytes, j: nat, wire: nat, depth: nat, end: nat)
    requires var r := SkipOne(d, i, wire, depth);
             r.Ok? && r.value.0 <= end <= |d| && Agree(d, i, e, j, end - i)
    ensures var r := SkipOne(d, i, wire, depth);
            SkipOne(e, j, wire, depth) == Ok((j + (r.value.0 - i), r.value.1))
  {
    hide ReadVarint;
    if wire == 0 || wire == 2 {
      var n := ReadVarint(d, i).value.1;
      AgreeTail(d, i, e, j, end - i, 0, n - i);
      ReadVarintMoves(d, i, e, j);
    }
  }

  /** One turn of the skipping loop. */
  lemma SkipTurn(d: bytes, base: nat, i: nat, depth: nat, tag: nat, n: nat, next: nat, depth': nat)
    requires base <= i < |d| && ReadVarint(d, i) == Ok((tag, n))
    requires SkipOne(d, n, tag % 8, depth) == Ok((next, depth'))
    ensures base <= next
    ensures SkipFrom(d, base, i, depth) ==
            if next - base >= NEGATIVE then Err(InvalidLength)
            else if depth' == 0 then Ok(next)
            else SkipFrom(d, base, next, depth')
  {
    hide ReadVarint;
  }

  lemma TagMoves(d: bytes, i: nat, e: bytes, j: nat, end: nat)
    requires ReadVarint(d, i).Ok? && ReadVarint(d, i).value.1 <= end <= |d| && Agree(d, i, e, j, end - i)
    ensures var (tag, n) := ReadVarint(d, i).value;
            ReadVarint(e, j) == Ok((tag, j + (n - i))) && Agree(d, n, e, j + (n - i), end - n)
  {
    hide ReadVarint;
    var n := ReadVarint(d, i).value.1;
    AgreeTail(d, i, e, j, end - i, 0, n - i);
    ReadVarintMoves(d, i, e, j);
    AgreeTail(d, i, e, j, end - i, n - i, end - n);
  }

  lemma TurnMoves(d: bytes, i: nat, e: bytes, j: nat, depth: nat, end: nat)
    requires ReadVarint(d, i).Ok?
    requires var (tag, n) := ReadVarint(d, i).value;
             var r := SkipOne(d, n, tag % 8, depth);
             r.Ok? && r.value.0 <= end <= |d|
    requires Agree(d, i, e, j, end - i)
    ensures var (tag, n) := ReadVarint(d, i).value;
            var (next, depth') := SkipOne(d, n, tag % 8, depth).value;
            && ReadVarint(e, j) == Ok((tag, j + (n - i)))
            && SkipOne(e, j + (n - i), tag % 8, depth) == Ok((j + (next - i), depth'))
            && Agree(d, next, e, j + (next - i), end - next)
  {
    hide ReadVarint;
    var (tag, n) := ReadVarint(d, i).value;
    var next := SkipOne(d, n, tag % 8, depth).value.0;
    TagMoves(d, i, e, j, end);
    SkipOneMoves(d, n, e, j + (n - i), tag % 8, depth, end);
    AgreeTail(d, i, e, j, end - i, next - i, end - next);
  }

  lemma {:induction false} SkipMoves(d: bytes, base: nat, i: nat, e: bytes, base': nat, j: nat, depth: nat)
    requires base <= i && base' <= j && i - base == j - base'
    requires var r := SkipFrom(d, base, i, depth); r.Ok? && r.value <= |d| && Agree(d, i, e, j, r.value - i)
    ensures var r := SkipFrom(d, base, i, depth);
            SkipFrom(e, base', j, depth) == Ok(j + (r.value - i))
    decreases |d| - i
  {
    hide ReadVarint;
    var end := SkipFrom(d, base, i, depth).value;
    var (tag, n) := ReadVarint(d, i).value;
    var (next, depth') := SkipOne(d, n, tag % 8, depth).value;
    SkipTurn(d, base, i, depth, tag, n, next, depth');
    TurnMoves(d, i, e, j, depth, end);
    SkipTurn(e, base', j, depth, tag, j + (n - i), j + (next - i), depth');
    if depth' != 0 {
      SkipMoves(d, base, next, e, base', j + (next - i), depth');
    }
  }

  // ---------------------------------------------------------------------
  // Records
  // ---------------------------------------------------------------------

  /** One field of a message: a known one with its payload, or the bytes of an
      unknown one, tag included. */
  datatype Record = Known(num: nat, payload: bytes) | Unknown(raw: bytes)

  /** The field number of a tag, as a signed 32-bit number. */
  function FieldNumber(tag: nat): int {
    var n := (tag / 8) % 0x1_0000_0000;
    if n < 0x8000_0000 then n else n - 0x1_0000_0000
  }

  /** What a tag announces to a message whose fields 1 to `known` are
      length-delimited. */
  datatype Announced = Field(num: nat) | Stranger | Refused(error: WireError)

  function Classify(tag: nat, known: nat): (a: Announced)
    ensures a.Field? ==> 1 <= a.num <= known
  {
    var num := FieldNumber(tag);
    if tag % 8 == 4 then Refused(EndGroup)
    else if num <= 0 then Refused(IllegalTag)
    else if num > known then Stranger
    else if tag % 8 != 2 then Refused(WrongWireType)
    else Field(num)
  }

  /** A known field: its payload and where it ends. */
  function FieldRecord(d: bytes, n: nat, num: nat): (r: Result<(Record, nat), WireError>)
    ensures r.Ok? ==> r.value.0.Known? && r.value.0.num == num && n < r.value.1 <= |d|
  {
    match ReadExtent(d, n)
    case Err(e) => Err(e)
    case Ok((s, end)) => Ok((Known(num, d[s..end]), end))
  }

  /** An unknown field: all its bytes and where it ends. */
  function StrangerRecord(d: bytes, i: nat): (r: Result<(Record, nat), WireError>)
    ensures r.Ok? ==> r.value.0.Unknown? && i < r.value.1 <= |d|
    ensures r.Ok? ==> r.value.0.raw == d[i..r.value.1]
  {
    match SkipFrom(d, i, i, 0)
    case Err(e) => Err(e)
    case Ok(next) =>
      if next >= NEGATIVE then Err(InvalidLength)
      else if next > |d| then Err(UnexpectedEOF)
      else Ok((Unknown(d[i..next]), next))
  }

  /** The next field of a message, and where it ends. */
  function NextRecord(d: bytes, i: nat, known: nat): (r: Result<(Record, nat), WireError>)
    ensures r.Ok? ==> i < r.value.1 <= |d|
    ensures r.Ok? && r.value.0.Known? ==> 1 <= r.value.0.num <= known
  {
    match ReadVarint(d, i)
    case Err(e) => Err(e)
    case Ok((tag, n)) =>
      match Classify(tag, known)
      case Refused(e) => Err(e)
      case Field(num) => FieldRecord(d, n, num)
      case Stranger => StrangerRecord(d, i)
  }

  lemma AgreeSlices(d: bytes, i: nat, e: bytes, j: nat, n: nat, k: nat, m: nat)
    requires Agree(d, i, e, j, n) && k <= m <= n
    ensures d[i + k..i + m] == e[j + k..j + m]
  {
    AgreeTail(d, i, e, j, n, k, m - k);
    AgreeIsSlice(d, i + k, e, j + k, m - k);
  }

  lemma FieldRecordMoves(d: bytes, e: bytes, n: nat, m: nat, num: nat)
    requires |e| < NEGATIVE
    requires var r := FieldRecord(d, n, num); r.Ok? && Agree(d, n, e, m, r.value.1 - n)
    ensures var r := FieldRecord(d, n, num);
            FieldRecord(e, m, num) == Ok((r.value.0, m + (r.value.1 - n)))
  {
    hide ReadVarint;
    var (s, end) := ReadExtent(d, n).value;
    ReadExtentMoves(d, n, e, m);
    AgreeSlices(d, n, e, m, end - n, s - n, end - n);
  }

  lemma StrangerRecordMoves(d: bytes, i: nat, e: bytes, j: nat)
    requires |e| < NEGATIVE
    requires var r := StrangerRecord(d, i); r.Ok? && Agree(d, i, e, j, r.value.1 - i)
    ensures var r := StrangerRecord(d, i);
            StrangerRecord(e, j) == Ok((r.value.0, j + (r.value.1 - i)))
  {
    hide ReadVarint;
    SkipMoves(d, i, i, e, j, j, 0);
    AgreeIsSlice(d, i, e, j, SkipFrom(d, i, i, 0).value - i);
  }

  /** A record is read alike wherever its bytes lie. */
  lemma NextRecordMoves(d: bytes, i: nat, e: bytes, j: nat, known: nat)
    requires |e| < NEGATIVE
    requires var r := NextRecord(d, i, known); r.Ok? && Agree(d, i, e, j, r.value.1 - i)
    ensures var r := NextRecord(d, i, known);
            NextRecord(e, j, known) == Ok((r.value.0, j + (r.value.1 - i)))
  {
    hide ReadVarint;
    var end := NextRecord(d, i, known).value.1;
    var (tag, n) := ReadVarint(d, i).value;
    match Classify(tag, known)
    case Field(num) =>
      TagMoves(d, i, e, j, end);
      FieldRecordMoves(d, e, n, j + (n - i), num);
    case Stranger =>
      TagFirst(d, i, end);
      TagMoves(d, i, e, j, end);
      StrangerRecordMoves(d, i, e, j);
  }

  /** A skipped field is at least as long as its tag. */
  lemma TagFirst(d: bytes, i: nat, end: nat)
    requires SkipFrom(d, i, i, 0) == Ok(end)
    ensures ReadVarint(d, i).Ok? && ReadVarint(d, i).value.1 <= end
  {
    hide ReadVarint;
  }

  /** A length-delimited field with a one-byte tag. */
  function LenField(tag: byte, p: bytes): (r: bytes) {
    [tag] + Varint(|p|) + p
  }

  lemma PayloadIsRead(d: bytes, i: nat, num: nat, p: bytes)
    requires |d| < NEGATIVE && Holds(d, i, Varint(|p|) + p)
    ensures FieldRecord(d, i, num) == Ok((Known(num, p), i + |Varint(|p|) + p|))
  {
    hide ReadVarint, Varint;
    var v := Varint(|p|);
    var f := v + p;
    HoldsPart(d, i, f, 0, |v|);
    assert f[0..|v|] == v && f[|v|..|f|] == p;
    ReadWritten(d, i, |p|);
    HoldsPart(d, i, f, |v|, |f|);
  }

  /** A written field is the next record. */
  lemma FieldIsNext(d: bytes, i: nat, num: nat, p: bytes, known: nat)
    requires |d| < NEGATIVE && 1 <= num <= known && num < 16
    requires Holds(d, i, LenField(8 * num + 2, p))
    ensures NextRecord(d, i, known) == Ok((Known(num, p), i + |LenField(8 * num + 2, p)|))
  {
    hide ReadVarint, Varint;
    var tag := 8 * num + 2;
    var f := LenField(tag, p);
    TagIsRead(d, i, tag, f);
    assert Holds(d, i + 1, Varint(|p|) + p) by {
      assert f[1..|f|] == Varint(|p|) + p;
      HoldsPart(d, i, f, 1, |f|);
    }
    PayloadIsRead(d, i + 1, num, p);
  }

  lemma TagIsRead(d: bytes, i: nat, tag: byte, f: bytes)
    requires Holds(d, i, f) && f != [] && f[0] == tag && tag < 128
    ensures ReadVarint(d, i) == Ok((tag, i + 1))
  {
    hide ReadVarint;
    assert Varint(tag) == [tag] == f[0..1];
    HoldsPart(d, i, f, 0, 1);
    ReadWritten(d, i, tag);
  }
}
