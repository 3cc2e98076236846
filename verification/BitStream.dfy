/** The bit stream: fields of 1 to 32 bits, most significant bit first. */
module BitStream {
  import opened Common
  import opened Bits

  // ---- Bits of a byte ----

  predicate TestBit(b: bv8, k: nat)
    requires k < 8
  {
    (b >> k) & 1 == 1
  }

  function SetBit(b: bv8, k: nat, bit: bool): bv8
    requires k < 8
  {
    if bit then b | ((1 as bv8) << k) else b & !((1 as bv8) << k)
  }

  lemma OtherBitsKept(b: bv8, k: nat, bit: bool)
    requires k < 8
    ensures forall m {:trigger TestBit(b, m)} {:trigger TestBit(SetBit(b, k, bit), m)} ::
              0 <= m < 8 ==> TestBit(SetBit(b, k, bit), m) == if m == k then bit else TestBit(b, m)
  {
    forall m | 0 <= m < 8
      ensures TestBit(SetBit(b, k, bit), m) == if m == k then bit else TestBit(b, m)
    {
      OneBit(b, k, bit, m);
    }
  }

  lemma OneBit(b: bv8, k: nat, bit: bool, m: nat)
    requires k < 8 && m < 8
    ensures TestBit(SetBit(b, k, bit), m) == if m == k then bit else TestBit(b, m)
  {
    match k
    case 0 => case 1 => case 2 => case 3 => case 4 => case 5 => case 6 => case 7 =>
  }

  // The bits of a buffer in stream order.
  function BitsOf(bytes: seq<bv8>): (bits: seq<bool>)
    ensures |bits| == 8 * |bytes|
  {
    seq(8 * |bytes|, i requires 0 <= i < 8 * |bytes| => TestBit(bytes[i / 8], 7 - i % 8))
  }

  // Setting one bit of one byte sets that bit of the stream and no other.
  lemma BitsUpdate(bytes: seq<bv8>, p: nat, bit: bool)
    requires p < 8 * |bytes|
    ensures BitsOf(bytes[p / 8 := SetBit(bytes[p / 8], 7 - p % 8, bit)]) == BitsOf(bytes)[p := bit]
  {
    var bytes' := bytes[p / 8 := SetBit(bytes[p / 8], 7 - p % 8, bit)];
    OtherBitsKept(bytes[p / 8], 7 - p % 8, bit);
    forall i | 0 <= i < 8 * |bytes|
      ensures BitsOf(bytes')[i] == BitsOf(bytes)[p := bit][i]
    {
      assert TestBit(bytes'[i / 8], 7 - i % 8) == if i / 8 == p / 8 && i % 8 == p % 8 then bit else TestBit(bytes[i / 8], 7 - i % 8);
    }
  }

  // ---- Values as bits ----

  function ToBits(value: nat, n: nat): (bits: seq<bool>)
    ensures |bits| == n
    decreases n
  {
    if n == 0 then [] else ToBits(value / 2, n - 1) + [value % 2 == 1]
  }

  function FromBits(bits: seq<bool>): (value: nat)
    ensures value < Pow2(|bits|)
  {
    if bits == [] then 0
    else 2 * FromBits(bits[..|bits| - 1]) + if bits[|bits| - 1] then 1 else 0
  }

  // The bit of weight 2^i.
  function ValueBit(value: nat, i: nat): bool {
    (value / Pow2(i)) % 2 != 0
  }

  // The j-th bit from the top is that of weight 2^(n - 1 - j).
  lemma {:induction false} ToBitsAt(value: nat, n: nat, j: nat)
    requires j < n
    ensures ToBits(value, n)[j] == ValueBit(value, n - 1 - j)
    decreases n
  {
    if j < n - 1 {
      ToBitsAt(value / 2, n - 1, j);
      HalfTwice(value, Pow2(n - 2 - j));
    }
  }

  // Reading back n bits of a value gives the value modulo 2^n.
  lemma {:induction false} ValueRoundTrip(value: nat, n: nat)
    ensures FromBits(ToBits(value, n)) == value % Pow2(n)
    decreases n
  {
    if n > 0 {
      ValueRoundTrip(value / 2, n - 1);
      HalfTwice(value, Pow2(n - 1));
      assert ToBits(value, n)[..n - 1] == ToBits(value / 2, n - 1);
    }
  }

  // A bit is shifted into a 32-bit word.
  function ShiftIn(value: nat, bit: bool): nat {
    (value * 2) % 0x1_0000_0000 + if bit then 1 else 0
  }

  lemma {:induction false} Pow2Bound(n: nat)
    requires n <= 31
    ensures Pow2(n) <= 0x8000_0000
    decreases 31 - n
  {
    if n < 31 {
      Pow2Bound(n + 1);
    } else {
      assert Pow2(8) == 0x100 && Pow2(16) == 0x1_0000 && Pow2(24) == 0x100_0000 && Pow2(31) == 0x8000_0000;
    }
  }

  // ---- Streams ----

  function Write(bits: seq<bool>, pos: nat, value: nat, count: nat): (Status, seq<bool>, nat)
    requires pos <= |bits|
  {
    if count == 0 || count > 32 then (Invalid, bits, pos)
    else if count > |bits| - pos then (Full, bits, pos)
    else (Ok, bits[..pos] + ToBits(value, count) + bits[pos + count..], pos + count)
  }

  function Read(bits: seq<bool>, pos: nat, count: nat): (Status, Option<nat>, nat)
    requires pos <= |bits|
  {
    if count == 0 || count > 32 then (Invalid, None, pos)
    else if count > |bits| - pos then (Empty, None, pos)
    else (Ok, Some(FromBits(bits[pos..pos + count])), pos + count)
  }

  function WriteAlign(bits: seq<bool>, pos: nat): (Status, seq<bool>, nat)
    requires pos <= |bits|
  {
    if pos % 8 == 0 then (Ok, bits, pos) else Write(bits, pos, 0, 8 - pos % 8)
  }

  function ReadAlign(bits: seq<bool>, pos: nat): (Status, nat)
    requires pos <= |bits|
  {
    if pos % 8 == 0 then (Ok, pos)
    else if 8 - pos % 8 > |bits| - pos then (Empty, pos)
    else (Ok, pos + (8 - pos % 8))
  }

  datatype Field = Value(value: nat, width: nat) | Align

  // A run of writes, up to the first that fails.
  function WriteAll(bits: seq<bool>, pos: nat, fields: seq<Field>): (r: (Status, seq<bool>, nat))
    requires pos <= |bits|
    ensures |r.1| == |bits| && pos <= r.2 <= |bits|
    decreases |fields|
  {
    if fields == [] then (Ok, bits, pos)
    else
      var (st, bits', pos') := match fields[0]
        case Value(v, n) => Write(bits, pos, v, n)
        case Align => WriteAlign(bits, pos);
      if st != Ok then (st, bits, pos) else WriteAll(bits', pos', fields[1..])
  }

  // A run of reads of fields of the same widths.
  function ReadAll(bits: seq<bool>, pos: nat, fields: seq<Field>): (Status, seq<nat>, nat)
    requires pos <= |bits|
    decreases |fields|
  {
    if fields == [] then (Ok, [], pos)
    else
      match fields[0]
      case Value(_, n) =>
        var (st, v, pos') := Read(bits, pos, n);
        if v.None? then (st, [], pos)
        else
          var (rest, vs, end) := ReadAll(bits, pos', fields[1..]);
          (rest, [v.value] + vs, end)
      case Align =>
        var (st, pos') := ReadAlign(bits, pos);
        if st != Ok then (st, [], pos) else ReadAll(bits, pos', fields[1..])
  }

  function Masked(fields: seq<Field>): seq<nat> {
    if fields == [] then []
    else if fields[0].Align? then Masked(fields[1..])
    else [fields[0].value % Pow2(fields[0].width)] + Masked(fields[1..])
  }

  lemma OutsideWindow(a: seq<bool>, b: seq<bool>, c: seq<bool>, i: nat, j: nat, k: nat)
    requires i <= j <= k <= |a| == |b| == |c|
    requires b[..i] == a[..i] && b[j..] == a[j..] && c[..j] == b[..j] && c[k..] == b[k..]
    ensures c[..i] == a[..i] && c[k..] == a[k..]
  {
    assert c[..i] == c[..j][..i] && b[..i] == b[..j][..i];
    assert b[k..] == b[j..][k - j..] && a[k..] == a[j..][k - j..];
  }

  // A run of writes leaves every bit outside its window as it was.
  lemma {:induction false} WritesStayInWindow(bits: seq<bool>, pos: nat, fields: seq<Field>)
    requires pos <= |bits|
    ensures var (_, bits', end) := WriteAll(bits, pos, fields);
            bits'[..pos] == bits[..pos] && bits'[end..] == bits[end..]
    decreases |fields|
  {
    if fields != [] {
      var (st, bits', pos') := match fields[0]
        case Value(v, n) => Write(bits, pos, v, n)
        case Align => WriteAlign(bits, pos);
      if st == Ok {
        WritesStayInWindow(bits', pos', fields[1..]);
        var (_, final, end) := WriteAll(bits, pos, fields);
        OutsideWindow(bits, bits', final, pos, pos', end);
      }
    }
  }

  // Reading a buffer back with the widths it was written with gives each value
  // modulo 2^width, and ends at the same position.
  lemma {:induction false} RoundTrip(bits: seq<bool>, pos: nat, fields: seq<Field>)
    requires pos <= |bits| && WriteAll(bits, pos, fields).0 == Ok
    ensures var (_, bits', end) := WriteAll(bits, pos, fields);
            ReadAll(bits', pos, fields) == (Ok, Masked(fields), end)
    decreases |fields|
  {
    if fields != [] {
      var (st, bits', pos') := match fields[0]
        case Value(v, n) => Write(bits, pos, v, n)
        case Align => WriteAlign(bits, pos);
      RoundTrip(bits', pos', fields[1..]);
      WritesStayInWindow(bits', pos', fields[1..]);
      var final := WriteAll(bits, pos, fields).1;
      match fields[0]
      case Value(v, n) =>
        assert final[pos..pos'] == final[..pos'][pos..] && bits'[pos..pos'] == bits'[..pos'][pos..];
        assert final[pos..pos'] == bits'[pos..pos'] == ToBits(v, n);
        ValueRoundTrip(v, n);
      case Align =>
    }
  }

  // Aligning a position within whole bytes never fails.
  lemma AlignSucceeds(bits: seq<bool>, pos: nat)
    requires pos <= |bits| && |bits| % 8 == 0
    ensures WriteAlign(bits, pos).0 == Ok && ReadAlign(bits, pos).0 == Ok
    ensures WriteAlign(bits, pos).2 == ReadAlign(bits, pos).1 == (pos + 7) / 8 * 8
  {
  }

  // ---- What writes and reads answer, and the bytes they leave ----

  // A field is accepted exactly when it has 1 to 32 bits and they fit; then the
  // bits at the position have its value modulo 2^width, and no other bit changes.
  lemma WriteExact(bits: seq<bool>, pos: nat, value: nat, count: nat)
    requires pos <= |bits|
    ensures var (st, bits', pos') := Write(bits, pos, value, count);
            && (st == Invalid <==> !(1 <= count <= 32))
            && (st == Full <==> 1 <= count <= 32 && pos + count > |bits|)
            && (st == Ok <==> 1 <= count <= 32 && pos + count <= |bits|)
            && (st != Ok ==> bits' == bits && pos' == pos)
            && (st == Ok ==>
                  && pos' == pos + count && |bits'| == |bits| && FromBits(bits'[pos..pos']) == value % Pow2(count)
                  && bits'[..pos] == bits[..pos] && bits'[pos'..] == bits[pos'..])
  {
    if 1 <= count <= 32 && pos + count <= |bits| {
      var field := ToBits(value, count);
      assert Write(bits, pos, value, count) == (Ok, bits[..pos] + field + bits[pos + |field|..], pos + |field|);
      Spliced(bits, pos, field);
      ValueRoundTrip(value, count);
    }
  }

  lemma Spliced(bits: seq<bool>, pos: nat, field: seq<bool>)
    requires pos + |field| <= |bits|
    ensures var end, r := pos + |field|, bits[..pos] + field + bits[pos + |field|..];
            |r| == |bits| && r[..pos] == bits[..pos] && r[pos..end] == field && r[end..] == bits[end..]
  {
  }

  lemma ReadExact(bits: seq<bool>, pos: nat, count: nat)
    requires pos <= |bits|
    ensures var (st, v, pos') := Read(bits, pos, count);
            && (st == Invalid <==> !(1 <= count <= 32))
            && (st == Empty <==> 1 <= count <= 32 && pos + count > |bits|)
            && (st == Ok <==> 1 <= count <= 32 && pos + count <= |bits|)
            && (if st == Ok then v.Some? && ToBits(v.value, count) == bits[pos..pos + count] && v.value < Pow2(count) && pos' == pos + count
                else v == None && pos' == pos)
  {
    if 1 <= count <= 32 && pos + count <= |bits| {
      BitsRoundTrip(bits[pos..pos + count]);
    }
  }

  // Any bits are those of their value.
  lemma {:induction false} BitsRoundTrip(bits: seq<bool>)
    ensures ToBits(FromBits(bits), |bits|) == bits
    decreases |bits|
  {
    if bits != [] {
      var n := |bits| - 1;
      BitsRoundTrip(bits[..n]);
      assert bits == bits[..n] + [bits[n]];
    }
  }

  // Aligning writes zeros up to the next byte.
  lemma {:induction false} ZeroBits(n: nat)
    ensures ToBits(0, n) == seq(n, _ => false)
  {
    if n > 0 {
      ZeroBits(n - 1);
    }
  }

  lemma AlignExact(bits: seq<bool>, pos: nat)
    requires pos <= |bits| && |bits| % 8 == 0
    ensures var (st, bits', pos') := WriteAlign(bits, pos);
            && st == Ok && pos <= pos' < pos + 8 && pos' % 8 == 0 && pos' <= |bits|
            && |bits'| == |bits| && (forall i :: pos <= i < pos' ==> !bits'[i])
            && bits'[..pos] == bits[..pos] && bits'[pos'..] == bits[pos'..]
            && ReadAlign(bits, pos) == (Ok, pos')
  {
    AlignSucceeds(bits, pos);
    if pos % 8 != 0 {
      ZeroBits(8 - pos % 8);
    }
  }

  lemma LowBit(b: bv8)
    ensures TestBit(b, 0) == ((b as int) % 2 != 0)
  {
  }

  lemma Halved(b: bv8)
    ensures (b >> 1) as int == (b as int) / 2
  {
  }

  lemma NextBitOf(b: bv8, k: nat)
    requires 0 < k < 8
    ensures TestBit(b, k) == TestBit(b >> 1, k - 1)
  {
    match k
    case 1 => case 2 => case 3 => case 4 => case 5 => case 6 => case 7 =>
  }

  // Bit k of a byte has the weight 2^k.
  lemma {:induction false} BitWeight(b: bv8, k: nat)
    requires k < 8
    ensures TestBit(b, k) == ValueBit(b as int, k)
    decreases k
  {
    if k == 0 {
      LowBit(b);
    } else {
      NextBitOf(b, k);
      Halved(b);
      BitWeight(b >> 1, k - 1);
      HalvedBit(b as int, k);
    }
  }

  lemma HalvedBit(value: nat, k: nat)
    requires k > 0
    ensures ValueBit(value, k) == ValueBit(value / 2, k - 1)
  {
    HalfTwice(value, Pow2(k - 1));
  }

  lemma BitAt(bytes: seq<bv8>, k: nat, i: nat)
    requires k < |bytes| && i < 8
    ensures BitsOf(bytes)[8 * k + i] == TestBit(bytes[k], 7 - i)
  {
    assert (8 * k + i) / 8 == k && (8 * k + i) % 8 == i;
  }

  lemma ByteBitAt(bytes: seq<bv8>, k: nat, i: nat)
    requires k < |bytes| && i < 8
    ensures BitsOf(bytes)[8 * k + i] == ValueBit(bytes[k] as int, 7 - i)
  {
    BitAt(bytes, k, i);
    BitWeight(bytes[k], 7 - i);
  }

  // Bits of the weights of a value have that value.
  lemma FieldValue(bits: seq<bool>, v: nat)
    requires forall i: nat {:trigger bits[i]} :: i < |bits| ==> bits[i] == ValueBit(v, |bits| - 1 - i)
    ensures FromBits(bits) == v % Pow2(|bits|)
  {
    var n := |bits|;
    var field := Weights(v, n);
    assert bits == field;
    ValueRoundTrip(v, n);
  }

  lemma Weights(v: nat, n: nat) returns (field: seq<bool>)
    ensures field == ToBits(v, n) && |field| == n
    ensures forall i: nat {:trigger field[i]} :: i < n ==> field[i] == ValueBit(v, n - 1 - i)
  {
    field := ToBits(v, n);
    forall i: nat | i < n
      ensures field[i] == ValueBit(v, n - 1 - i)
    {
      ToBitsAt(v, n, i);
    }
  }

  lemma ByteFits(v: nat)
    requires v < 0x100
    ensures v % Pow2(8) == v
  {
    assert Pow2(8) == 0x100;
  }

  // The eight bits of a byte have its value: the first is the most significant.
  lemma ByteValue(bytes: seq<bv8>, k: nat)
    requires k < |bytes|
    ensures FromBits(BitsOf(bytes)[8 * k..8 * k + 8]) == bytes[k] as int
  {
    var bits, v: nat := BitsOf(bytes)[8 * k..8 * k + 8], bytes[k] as int;
    forall i: nat | i < 8
      ensures bits[i] == ValueBit(v, 7 - i)
    {
      ByteBitAt(bytes, k, i);
    }
    FieldValue(bits, v);
    ByteFits(v);
  }

  lemma SameByte(bytes: seq<bv8>, bytes': seq<bv8>, k: nat)
    requires k < |bytes| == |bytes'| && BitsOf(bytes')[8 * k..8 * k + 8] == BitsOf(bytes)[8 * k..8 * k + 8]
    ensures bytes'[k] == bytes[k]
  {
    ByteValue(bytes, k);
    ByteValue(bytes', k);
    SameValue(bytes[k], bytes'[k]);
  }

  lemma SameValue(b: bv8, c: bv8)
    ensures b as int == c as int ==> b == c
  {
  }

  // A slice that lies outside a window in which two sequences may differ.
  lemma OutsideSlice(a: seq<bool>, b: seq<bool>, i: nat, j: nat, p: nat, q: nat)
    requires |a| == |b| && p <= q <= |a| && a[..p] == b[..p] && a[q..] == b[q..]
    requires i <= j <= |a| && (j <= p || q <= i)
    ensures a[i..j] == b[i..j]
  {
    forall k | i <= k < j
      ensures a[k] == b[k]
    {
      assert k < p ==> a[k] == a[..p][k] && b[k] == b[..p][k];
      assert q <= k ==> a[k] == a[q..][k - q] && b[k] == b[q..][k - q];
    }
  }

  lemma ByteWritten(bits: seq<bool>, pos: nat, value: nat)
    requires pos + 8 <= |bits|
    ensures var bits' := Write(bits, pos, value, 8).1;
            && |bits'| == |bits| && FromBits(bits'[pos..pos + 8]) == value % 0x100
            && bits'[..pos] == bits[..pos] && bits'[pos + 8..] == bits[pos + 8..]
  {
    WriteExact(bits, pos, value, 8);
    assert Pow2(8) == 0x100;
  }

  // So a field of eight bits at the start of a byte becomes that byte, and no
  // other byte changes.
  lemma WrittenByte(bytes: seq<bv8>, bytes': seq<bv8>, k: nat, value: nat, j: nat)
    requires k < |bytes| == |bytes'| && BitsOf(bytes') == Write(BitsOf(bytes), 8 * k, value, 8).1 && j < |bytes|
    ensures if j == k then bytes'[j] as int == value % 0x100 else bytes'[j] == bytes[j]
  {
    var bits, bits' := BitsOf(bytes), BitsOf(bytes');
    ByteWritten(bits, 8 * k, value);
    if j == k {
      ByteValue(bytes', k);
    } else {
      OutsideSlice(bits', bits, 8 * j, 8 * j + 8, 8 * k, 8 * k + 8);
      SameByte(bytes, bytes', j);
    }
  }

  // ---- The writer and the reader ----

  class BitWriter {
    const bytes: array<bv8>
    var bitPos: nat

    ghost predicate Valid()
      reads this
    {
      bitPos <= 8 * bytes.Length
    }

    ghost function Bits(): seq<bool>
      reads bytes
    {
      BitsOf(bytes[..])
    }

    // The buffer is cleared.
    constructor (bytes: array<bv8>)
      modifies bytes
      ensures Valid() && bitPos == 0 && this.bytes == bytes
      ensures Bits() == seq(8 * bytes.Length, _ => false)
    {
      this.bytes, bitPos := bytes, 0;
      new;
      Zero();
    }

    method Zero()
      modifies bytes
      ensures Bits() == seq(8 * bytes.Length, _ => false)
    {
      for i := 0 to bytes.Length
        invariant forall j :: 0 <= j < i ==> bytes[j] == 0
      {
        bytes[i] := 0;
      }
    }

    method Reset()
      modifies this, bytes
      ensures Valid() && bitPos == 0 && Bits() == seq(8 * bytes.Length, _ => false)
    {
      bitPos := 0;
      Zero();
    }

    function BitsAvailable(): nat
      requires Valid()
      reads this
    {
      if bitPos >= 8 * bytes.Length then 0 else 8 * bytes.Length - bitPos
    }

    method WriteBits(value: nat, count: nat) returns (st: Status)
      requires Valid() && value < 0x1_0000_0000 && count < 0x100
      modifies this, bytes
      ensures Valid() && (st, Bits(), bitPos) == Write(old(Bits()), old(bitPos), value, count)
    {
      if count == 0 || count > 32 {
        return Invalid;
      }
      if count > BitsAvailable() {
        return Full;
      }
      PutBits(value, count);
      return Ok;
    }

    method PutBits(value: nat, count: nat)
      requires 0 < count && bitPos + count <= 8 * bytes.Length
      modifies `bitPos, bytes
      ensures bitPos == old(bitPos) + count
      ensures Bits() == old(Bits())[..old(bitPos)] + ToBits(value, count) + old(Bits())[bitPos..]
    {
      ghost var bits, pos, field, k := Bits(), bitPos, ToBits(value, count), 0;
      var i := count - 1;
      Overlaid(bits, pos, field);
      while i >= 0
        invariant k + i == count - 1 && bitPos == pos + k && k <= count
        invariant Bits() == Overlay(bits, pos, field, k)
      {
        var bit := TestValue(value, i, count);
        PutNext(bit, bits, pos, field, k);
        i, k := i - 1, k + 1;
      }
    }

    method TestValue(value: nat, i: nat, ghost count: nat) returns (bit: bool)
      requires i < count
      ensures bit == ToBits(value, count)[count - 1 - i]
    {
      ToBitsAt(value, count, count - 1 - i);
      bit := ValueBit(value, i);
    }

    method PutNext(bit: bool, ghost bits: seq<bool>, ghost pos: nat, ghost field: seq<bool>, ghost k: nat)
      requires k < |field| && pos + |field| <= |bits| && bitPos == pos + k
      requires Bits() == Overlay(bits, pos, field, k) && bit == field[k]
      modifies `bitPos, bytes
      ensures bitPos == old(bitPos) + 1 && Bits() == Overlay(bits, pos, field, k + 1)
    {
      WrittenBit(bits, pos, field, k);
      PutBit(bit);
    }

    // The bits once the first k of a field have been written at pos.
    static function Overlay(bits: seq<bool>, pos: nat, field: seq<bool>, k: nat): (r: seq<bool>)
      requires k <= |field| && pos + |field| <= |bits|
      ensures |r| == |bits|
    {
      bits[..pos] + field[..k] + bits[pos + k..]
    }

    lemma Overlaid(bits: seq<bool>, pos: nat, field: seq<bool>)
      requires pos + |field| <= |bits|
      ensures Overlay(bits, pos, field, 0) == bits
      ensures Overlay(bits, pos, field, |field|) == bits[..pos] + field + bits[pos + |field|..]
    {
      assert field[..|field|] == field;
    }

    method PutBit(bit: bool)
      requires bitPos < 8 * bytes.Length
      modifies `bitPos, bytes
      ensures bitPos == old(bitPos) + 1 && Bits() == old(Bits())[old(bitPos) := bit]
    {
      var byteIndex := bitPos / 8;
      var bitIndex := 7 - bitPos % 8;
      BitsUpdate(bytes[..], bitPos, bit);
      ghost var before := bytes[..];
      bytes[byteIndex] := SetBit(bytes[byteIndex], bitIndex, bit);
      assert bytes[..] == before[byteIndex := SetBit(before[byteIndex], bitIndex, bit)];
      bitPos := bitPos + 1;
    }

    lemma WrittenBit(bits: seq<bool>, pos: nat, field: seq<bool>, k: nat)
      requires k < |field| && pos + |field| <= |bits|
      ensures Overlay(bits, pos, field, k)[pos + k := field[k]] == Overlay(bits, pos, field, k + 1)
    {
    }

    method AlignToByte() returns (st: Status)
      requires Valid()
      modifies this, bytes
      ensures Valid() && (st, Bits(), bitPos) == WriteAlign(old(Bits()), old(bitPos))
      ensures st == Ok
    {
      AlignSucceeds(Bits(), bitPos);
      var offset := bitPos % 8;
      if offset == 0 {
        return Ok;
      }
      st := WriteBits(0, 8 - offset);
    }
  }

  class BitReader {
    const bytes: array<bv8>
    var bitPos: nat

    ghost predicate Valid()
      reads this
    {
      bitPos <= 8 * bytes.Length
    }

    ghost function Bits(): seq<bool>
      reads bytes
    {
      BitsOf(bytes[..])
    }

    constructor (bytes: array<bv8>)
      ensures Valid() && bitPos == 0 && this.bytes == bytes
    {
      this.bytes, bitPos := bytes, 0;
    }

    function BitsRemaining(): nat
      requires Valid()
      reads this
    {
      if bitPos >= 8 * bytes.Length then 0 else 8 * bytes.Length - bitPos
    }

    // The accumulated value is a 32-bit word.
    method ReadBits(count: nat) returns (st: Status, out: Option<nat>)
      requires Valid() && count < 0x100
      modifies this
      ensures Valid() && (st, out, bitPos) == Read(Bits(), old(bitPos), count)
    {
      if count == 0 || count > 32 {
        return Invalid, None;
      }
      if count > BitsRemaining() {
        return Empty, None;
      }
      var value := GetBits(count);
      bitPos := bitPos + count;
      return Ok, Some(value);
    }

    method GetBits(count: nat) returns (value: nat)
      requires count <= 32 && bitPos + count <= 8 * bytes.Length
      ensures value == FromBits(Bits()[bitPos..bitPos + count])
    {
      ghost var bits := Bits();
      value := 0;
      assert FromBits(bits[bitPos..bitPos + 0]) == 0;
      for i := 0 to count
        invariant value == FromBits(bits[bitPos..bitPos + i])
      {
        value := GetNext(bits, i, value);
      }
    }

    method GetNext(ghost bits: seq<bool>, i: nat, value: nat) returns (value': nat)
      requires bits == Bits() && i < 32 && bitPos + i < |bits| && value == FromBits(bits[bitPos..bitPos + i])
      ensures value' == FromBits(bits[bitPos..bitPos + i + 1])
    {
      var bit := GetBit(bitPos + i);
      NextBit(bits, bitPos, i);
      value' := ShiftIn(value, bit);
    }

    method GetBit(absoluteBit: nat) returns (bit: bool)
      requires absoluteBit < 8 * bytes.Length
      ensures bit == Bits()[absoluteBit]
    {
      var byteIndex := absoluteBit / 8;
      var bitIndex := 7 - absoluteBit % 8;
      bit := TestBit(bytes[byteIndex], bitIndex);
    }

    lemma NextBit(bits: seq<bool>, pos: nat, i: nat)
      requires i < 32 && pos + i < |bits|
      ensures FromBits(bits[pos..pos + i + 1]) == ShiftIn(FromBits(bits[pos..pos + i]), bits[pos + i])
    {
      Pow2Bound(i);
      var window := bits[pos..pos + i + 1];
      assert window[..i] == bits[pos..pos + i] && window[i] == bits[pos + i];
    }

    method SkipBits(count: nat) returns (st: Status)
      requires Valid()
      modifies this
      ensures Valid() && if count > 8 * bytes.Length - old(bitPos) then st == Empty && bitPos == old(bitPos) else st == Ok && bitPos == old(bitPos) + count
    {
      if count > BitsRemaining() {
        return Empty;
      }
      bitPos := bitPos + count;
      return Ok;
    }

    method AlignToByte() returns (st: Status)
      requires Valid()
      modifies this
      ensures Valid() && (st, bitPos) == ReadAlign(Bits(), old(bitPos))
    {
      var offset := bitPos % 8;
      if offset == 0 {
        return Ok;
      }
      st := SkipBits(8 - offset);
    }
  }
}
