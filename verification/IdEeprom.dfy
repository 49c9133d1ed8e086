/**
 The board records kept in the identification EEPROM and the 16-bit XOR checksum that protects them.
 A record is `n` covered bytes followed by the checksum, low byte first (`n` is 37 for both records).

 An unsigned integer is modelled by the set of positions of its one bits: XOR is the symmetric
 difference, shifting left by eight adds eight to every position, and the flipped bits of an error pattern
 can be counted.
 */
module IdEeprom {

  type Octet = b: set<nat> | forall k :: k in b ==> k < 8
  type Word = w: set<nat> | forall k :: k in w ==> k < 16
  type Octets = seq<Octet>

  const COVERED: nat := 37
  const RECORD_SIZE: nat := 39
  const BOARD_ID: nat := 1  // offset of the 32 characters of board_id

  function Xor(a: set<nat>, b: set<nat>): set<nat> {
    (a - b) + (b - a)
  }

  function Shl8(b: Octet): Word {
    set k | k in b :: k + 8
  }

  /** Even positions land in the low half of the sum, odd ones in the high half. */
  function Lane(i: nat, b: Octet): Word {
    if i % 2 == 0 then b else Shl8(b)
  }

  function Checksum(data: Octets): Word {
    if data == [] then {} else
    var last := |data| - 1;
    Xor(Checksum(data[..last]), Lane(last, data[last]))
  }

  method ComputeChecksum(data: array<Octet>, length: nat) returns (sum: Word)
    requires length <= data.Length
    ensures sum == Checksum(data[..length])
  {
    sum := {};
    for i := 0 to length
      invariant sum == Checksum(data[..i])
    {
      assert data[..i + 1][..i] == data[..i];
      if i % 2 == 0 {
        sum := Xor(sum, data[i]);
      } else {
        sum := Xor(sum, Shl8(data[i]));
      }
    }
  }

  function Le16(lo: Octet, hi: Octet): Word {
    lo + Shl8(hi)
  }

  lemma LanesJoin(lo: Octet, hi: Octet)
    ensures Xor(lo, Shl8(hi)) == Le16(lo, hi)
  {
    assert lo !! Shl8(hi);
  }

  // ---------------------------------------------------------------- the algebra of XOR

  lemma XorAssoc(x: set<nat>, y: set<nat>, z: set<nat>)
    ensures Xor(Xor(x, y), z) == Xor(x, Xor(y, z))
  {
  }

  lemma XorSwap(w: set<nat>, x: set<nat>, y: set<nat>, z: set<nat>)
    ensures Xor(Xor(w, x), Xor(y, z)) == Xor(Xor(w, y), Xor(x, z))
  {
    forall k ensures k in Xor(Xor(w, x), Xor(y, z)) <==> k in Xor(Xor(w, y), Xor(x, z)) {
    }
  }

  lemma XorZero(x: set<nat>, y: set<nat>)
    ensures Xor(x, y) == {} <==> x == y
  {
    if Xor(x, y) == {} {
      forall k ensures k in x <==> k in y {
        assert k !in Xor(x, y);
      }
    }
  }

  lemma Shl8Xor(a: Octet, b: Octet)
    ensures Shl8(Xor(a, b)) == Xor(Shl8(a), Shl8(b))
  {
    forall k ensures k in Shl8(Xor(a, b)) <==> k in Xor(Shl8(a), Shl8(b)) {
      if k >= 8 {
        var j := k - 8;
        assert k in Shl8(a) <==> j in a;
        assert k in Shl8(b) <==> j in b;
        assert k in Shl8(Xor(a, b)) <==> j in Xor(a, b);
      }
    }
  }

  lemma LaneXor(i: nat, a: Octet, b: Octet)
    ensures Lane(i, Xor(a, b)) == Xor(Lane(i, a), Lane(i, b))
  {
    Shl8Xor(a, b);
  }

  // ---------------------------------------------------------------- the sum, word by word

  /** The XOR of the little-endian words, a last odd byte standing for itself. */
  function WordSum(data: Octets): Word {
    if |data| == 0 then {}
    else if |data| == 1 then data[0]
    else Xor(Le16(data[0], data[1]), WordSum(data[2..]))
  }

  lemma LaneShift(i: nat, j: nat, b: Octet)
    requires i % 2 == 0
    ensures Lane(i + j, b) == Lane(j, b)
  {
  }

  lemma {:induction false} ChecksumConcat(a: Octets, b: Octets)
    requires |a| % 2 == 0
    ensures Checksum(a + b) == Xor(Checksum(a), Checksum(b))
    decreases |b|
  {
    if b == [] {
      assert a + b == a;
    } else {
      var front, last := b[..|b| - 1], b[|b| - 1];
      assert (a + b)[..|a| + |b| - 1] == a + front;
      ChecksumConcat(a, front);
      LaneShift(|a|, |b| - 1, last);
      XorAssoc(Checksum(a), Checksum(front), Lane(|b| - 1, last));
    }
  }

  lemma ChecksumPair(lo: Octet, hi: Octet)
    ensures Checksum([lo]) == lo && Checksum([lo, hi]) == Le16(lo, hi)
  {
    var none: Octets := [];
    assert [lo][..0] == none && [lo, hi][..1] == [lo];
    assert Checksum([lo]) == Xor({}, lo);
    LanesJoin(lo, hi);
  }

  /** For every length the loop computes the XOR of the little-endian 16-bit words. */
  lemma {:induction false} ChecksumIsWordSum(data: Octets)
    ensures Checksum(data) == WordSum(data)
    decreases |data|
  {
    if |data| >= 2 {
      assert data == [data[0], data[1]] + data[2..];
      ChecksumConcat([data[0], data[1]], data[2..]);
      ChecksumPair(data[0], data[1]);
      ChecksumIsWordSum(data[2..]);
    } else if |data| == 1 {
      assert data == [data[0]];
      ChecksumPair(data[0], data[0]);
    }
  }

  // ---------------------------------------------------------------- linearity and error patterns

  function Flip(a: Octets, e: Octets): (r: Octets)
    requires |a| == |e|
    ensures |r| == |a| && forall i :: 0 <= i < |a| ==> r[i] == Xor(a[i], e[i])
  {
    seq(|a|, i requires 0 <= i < |a| => Xor(a[i], e[i]))
  }

  lemma {:induction false} ChecksumLinear(a: Octets, b: Octets)
    requires |a| == |b|
    ensures Checksum(Flip(a, b)) == Xor(Checksum(a), Checksum(b))
    decreases |a|
  {
    if a != [] {
      var k := |a| - 1;
      ChecksumLinear(a[..k], b[..k]);
      assert Flip(a, b)[..k] == Flip(a[..k], b[..k]);
      LaneXor(k, a[k], b[k]);
      XorSwap(Checksum(a[..k]), Checksum(b[..k]), Lane(k, a[k]), Lane(k, b[k]));
    }
  }

  /** The check of a record: the recomputed sum equals the stored one. */
  predicate Accepted(r: Octets)
    requires |r| >= 2
  {
    Checksum(r[..|r| - 2]) == Le16(r[|r| - 2], r[|r| - 1])
  }

  /** Recomputed sum XOR stored sum. */
  function Syndrome(r: Octets): set<nat>
    requires |r| >= 2
  {
    Xor(Checksum(r[..|r| - 2]), Xor(Lane(0, r[|r| - 2]), Lane(1, r[|r| - 1])))
  }

  lemma AcceptedIffZero(r: Octets)
    requires |r| >= 2
    ensures Accepted(r) <==> Syndrome(r) == {}
  {
    LanesJoin(r[|r| - 2], r[|r| - 1]);
    XorZero(Checksum(r[..|r| - 2]), Le16(r[|r| - 2], r[|r| - 1]));
  }

  lemma SyndromeLinear(a: Octets, b: Octets)
    requires |a| == |b| >= 2
    ensures Syndrome(Flip(a, b)) == Xor(Syndrome(a), Syndrome(b))
  {
    var n := |a| - 2;
    ChecksumLinear(a[..n], b[..n]);
    assert Flip(a, b)[..n] == Flip(a[..n], b[..n]);
    var al, ah, bl, bh := Lane(0, a[n]), Lane(1, a[n + 1]), Lane(0, b[n]), Lane(1, b[n + 1]);
    LaneXor(0, a[n], b[n]);
    LaneXor(1, a[n + 1], b[n + 1]);
    XorSwap(al, bl, ah, bh);
    XorSwap(Checksum(a[..n]), Checksum(b[..n]), Xor(al, ah), Xor(bl, bh));
  }

  /** A corruption of a good record slips through exactly when its error pattern has a zero syndrome. */
  lemma UndetectedIff(good: Octets, error: Octets)
    requires |good| == |error| >= 2 && Accepted(good)
    ensures Accepted(Flip(good, error)) <==> Syndrome(error) == {}
  {
    SyndromeLinear(good, error);
    AcceptedIffZero(good);
    AcceptedIffZero(Flip(good, error));
    assert Xor({}, Syndrome(error)) == Syndrome(error);
  }

  // ---------------------------------------------------------------- errors in two adjacent bytes

  /** Nothing outside positions `i` and `i + 1` is touched. */
  predicate Confined(e: Octets, i: nat) {
    forall k :: 0 <= k < |e| && k != i && k != i + 1 ==> e[k] == {}
  }

  function LaneAt(e: Octets, i: nat): Word {
    if i < |e| then Lane(i, e[i]) else {}
  }

  lemma {:induction false} ChecksumConfined(e: Octets, i: nat)
    requires Confined(e, i)
    ensures Checksum(e) == Xor(LaneAt(e, i), LaneAt(e, i + 1))
    decreases |e|
  {
    if e != [] {
      var k := |e| - 1;
      var front := e[..k];
      ChecksumConfined(front, i);
      if k != i && k != i + 1 {
        assert Lane(k, e[k]) == {};
      }
    }
  }

  lemma LaneEmpty(i: nat, a: Octet)
    ensures Lane(i, a) == {} <==> a == {}
  {
    if a != {} {
      var k :| k in a;
      assert k in Lane(i, a) || k + 8 in Lane(i, a);
    }
  }

  /** Bytes landing in different halves cancel only when there is nothing to cancel. */
  lemma LanesDisjoint(i: nat, j: nat, a: Octet, b: Octet)
    requires i % 2 != j % 2
    ensures Xor(Lane(i, a), Lane(j, b)) == {} <==> a == {} && b == {}
  {
    assert Lane(i, a) !! Lane(j, b);
    assert Xor(Lane(i, a), Lane(j, b)) == Lane(i, a) + Lane(j, b);
    LaneEmpty(i, a);
    LaneEmpty(j, b);
  }

  /** The syndrome of a confined pattern is that of its two bytes, in the halves they land in. */
  lemma SyndromeConfined(e: Octets, i: nat)
    requires |e| >= 2 && i + 1 < |e| && Confined(e, i)
    ensures var n := |e| - 2;
      Syndrome(e) == Xor(Lane(if i >= n then i - n else i, e[i]), Lane(if i + 1 >= n then i + 1 - n else i + 1, e[i + 1]))
  {
    var n := |e| - 2;
    ChecksumConfined(e[..n], i);
    if i < n {
      LaneEmpty(1, e[n + 1]);
      if i < n - 1 {
        LaneEmpty(0, e[n]);
      }
    }
  }

  lemma ConfinedZero(e: Octets, i: nat)
    requires |e| >= 2 && i + 1 < |e| && Confined(e, i) && (e[i] != {} || e[i + 1] != {})
    ensures var n := |e| - 2; Syndrome(e) == {} <==> n % 2 == 1 && i == n - 1 && e[i] == e[i + 1]
  {
    var n := |e| - 2;
    SyndromeConfined(e, i);
    if i + 1 < n {
      LanesDisjoint(i, i + 1, e[i], e[i + 1]);
    } else if i == n {
      LanesDisjoint(0, 1, e[i], e[i + 1]);
    } else if n % 2 == 1 {
      XorZero(e[i], e[i + 1]);
    } else {
      LanesDisjoint(i, 0, e[i], e[i + 1]);
    }
  }

  /**
   Any change confined to two adjacent bytes of a record is detected, with one exception: when an odd
   number of bytes is covered, the same change to the last covered byte and to the low checksum byte.
   */
  lemma AdjacentErrors(good: Octets, error: Octets, i: nat)
    requires |good| == |error| >= 2 && Accepted(good)
    requires i + 1 < |error| && Confined(error, i) && (error[i] != {} || error[i + 1] != {})
    ensures var n := |good| - 2;
      Accepted(Flip(good, error)) <==> n % 2 == 1 && i == n - 1 && error[i] == error[i + 1]
  {
    ConfinedZero(error, i);
    UndetectedIff(good, error);
  }

  // ---------------------------------------------------------------- odd numbers of flipped bits

  /** The number of one bits among the lowest `n`. */
  function Count(w: set<nat>, n: nat): nat {
    if n == 0 then 0 else Count(w, n - 1) + if n - 1 in w then 1 else 0
  }

  /** The number of one bits of a byte string, that is of flipped bits of an error pattern. */
  function Ones(e: Octets): nat {
    if e == [] then 0 else Ones(e[..|e| - 1]) + Count(e[|e| - 1], 8)
  }

  predicate Odd(n: nat) {
    n % 2 == 1
  }

  lemma OddSum(a: nat, b: nat)
    ensures Odd(a + b) <==> (Odd(a) <==> !Odd(b))
  {
  }

  lemma {:induction false} XorParity(x: set<nat>, y: set<nat>, n: nat)
    ensures Odd(Count(Xor(x, y), n)) <==> Odd(Count(x, n) + Count(y, n))
  {
    if n > 0 {
      XorParity(x, y, n - 1);
      assert n - 1 in Xor(x, y) <==> (n - 1 in x <==> n - 1 !in y);
    }
  }

  lemma {:induction false} CountLow(w: set<nat>, n: nat)
    requires forall k :: k in w ==> k >= n
    ensures Count(w, n) == 0
  {
    if n > 0 {
      CountLow(w, n - 1);
    }
  }

  lemma {:induction false} CountShl8(b: Octet, n: nat)
    ensures Count(Shl8(b), n + 8) == Count(b, n)
  {
    if n == 0 {
      CountLow(Shl8(b), 8);
    } else {
      CountShl8(b, n - 1);
      assert n - 1 + 8 in Shl8(b) <==> n - 1 in b;
    }
  }

  lemma {:induction false} CountHigh(b: Octet, n: nat)
    requires n >= 8
    ensures Count(b, n) == Count(b, 8)
  {
    if n > 8 {
      CountHigh(b, n - 1);
    }
  }

  lemma LaneCount(i: nat, b: Octet)
    ensures Count(Lane(i, b), 16) == Count(b, 8)
  {
    CountShl8(b, 8);
    CountHigh(b, 16);
  }

  /** Adding a word to a sum adds its bits to the count, modulo two. */
  lemma OddPair(x: set<nat>, y: set<nat>, ones: nat)
    requires Odd(Count(x, 16)) <==> Odd(ones)
    ensures Odd(Count(Xor(x, y), 16)) <==> Odd(ones + Count(y, 16))
  {
    XorParity(x, y, 16);
    OddSum(ones, Count(y, 16));
    OddSum(Count(x, 16), Count(y, 16));
  }

  lemma {:induction false} ChecksumParity(e: Octets)
    ensures Odd(Count(Checksum(e), 16)) <==> Odd(Ones(e))
    decreases |e|
  {
    if e == [] {
      CountLow({}, 16);
    } else {
      var k := |e| - 1;
      ChecksumParity(e[..k]);
      LaneCount(k, e[k]);
      OddPair(Checksum(e[..k]), Lane(k, e[k]), Ones(e[..k]));
    }
  }

  lemma OnesSplit(e: Octets)
    requires |e| >= 2
    ensures var n := |e| - 2; Ones(e) == Ones(e[..n]) + Count(e[n], 8) + Count(e[n + 1], 8)
  {
    var n := |e| - 2;
    assert e[..n + 1][..n] == e[..n];
  }

  lemma OddSyndrome(e: Octets)
    requires |e| >= 2 && Odd(Ones(e))
    ensures Syndrome(e) != {}
  {
    var n := |e| - 2;
    var sum, lo, hi := Checksum(e[..n]), Lane(0, e[n]), Lane(1, e[n + 1]);
    OnesSplit(e);
    ChecksumParity(e[..n]);
    LaneCount(0, e[n]);
    LaneCount(1, e[n + 1]);
    OddPair(sum, lo, Ones(e[..n]));
    OddPair(Xor(sum, lo), hi, Ones(e[..n]) + Count(e[n], 8));
    XorAssoc(sum, lo, hi);
    CountLow({}, 16);
  }

  /** Flipping any odd number of bits, anywhere in the record, is detected. */
  lemma OddFlips(good: Octets, error: Octets)
    requires |good| == |error| >= 2 && Accepted(good)
    requires Odd(Ones(error))
    ensures !Accepted(Flip(good, error))
  {
    OddSyndrome(error);
    UndetectedIff(good, error);
  }

  // ---------------------------------------------------------------- reading a record

  const CHAR_N: Octet := {1, 2, 3, 6}
  const CHAR_SLASH: Octet := {0, 1, 2, 3, 5}
  const CHAR_A: Octet := {0, 6}

  function DefaultRecord(): (r: Octets)
    ensures |r| == RECORD_SIZE
  {
    [{}, CHAR_N, CHAR_SLASH, CHAR_A] + seq(RECORD_SIZE - 4, _ => {})
  }

  /** What the caller's record holds after a read that transferred `bytes` with status `success`. */
  function Loaded(success: bool, bytes: Octets): Octets
    requires |bytes| == RECORD_SIZE
  {
    if success && Accepted(bytes) then bytes else DefaultRecord()
  }

  /** `ID_EEPROM_GetBoardInfo` and `ID_EEPROM_GetCarrierBoardInfo`, which differ only in the device read. */
  method GetBoardInfo(buffer: array<Octet>, success: bool, bytes: Octets) returns (ok: bool)
    requires buffer.Length == RECORD_SIZE == |bytes|
    modifies buffer
    ensures ok == success
    ensures buffer[..] == Loaded(success, bytes)
  {
    for i := 0 to RECORD_SIZE
      invariant forall k :: 0 <= k < i ==> buffer[k] == bytes[k]
    {
      buffer[i] := bytes[i];
    }
    assert buffer[..] == bytes && buffer[..COVERED] == bytes[..COVERED];
    var sum := ComputeChecksum(buffer, RECORD_SIZE - 2);
    if !success || sum != Le16(buffer[COVERED], buffer[COVERED + 1]) {
      for i := 0 to RECORD_SIZE
        invariant forall k :: 0 <= k < i ==> buffer[k] == {}
      {
        buffer[i] := {};
      }
      buffer[BOARD_ID], buffer[BOARD_ID + 1], buffer[BOARD_ID + 2] := CHAR_N, CHAR_SLASH, CHAR_A;
      assert buffer[..] == DefaultRecord();
    }
    ok := success;
  }

  /** A byte as a number. */
  function Value(b: Octet): nat {
    (if 0 in b then 1 else 0) + (if 1 in b then 2 else 0) + (if 2 in b then 4 else 0) + (if 3 in b then 8 else 0)
    + (if 4 in b then 16 else 0) + (if 5 in b then 32 else 0) + (if 6 in b then 64 else 0) + if 7 in b then 128 else 0
  }

  /** A failed transfer always delivers the default record, whatever was transferred: zeros but for the text N/A at offset 1. */
  lemma FailedTransfer(bytes: Octets)
    requires |bytes| == RECORD_SIZE
    ensures var r := Loaded(false, bytes);
      && |r| == 39 && Value(r[1]) == 'N' as int && Value(r[2]) == '/' as int && Value(r[3]) == 'A' as int
      && forall i :: 0 <= i < 39 && (i < 1 || i > 3) ==> r[i] == {}
  {
  }

  lemma {:induction false} ZeroChecksum(data: Octets)
    requires forall i :: 0 <= i < |data| ==> data[i] == {}
    ensures Checksum(data) == {}
    decreases |data|
  {
    if data != [] {
      ZeroChecksum(data[..|data| - 1]);
      assert Lane(|data| - 1, data[|data| - 1]) == {};
    }
  }

  /** A blank EEPROM that reads as zeros passes the check: the record delivered is all zeros and not the default. */
  lemma ZeroRecordAccepted(bytes: Octets)
    requires |bytes| == RECORD_SIZE && forall i :: 0 <= i < |bytes| ==> bytes[i] == {}
    ensures Loaded(true, bytes) == bytes != DefaultRecord()
  {
    ZeroChecksum(bytes[..RECORD_SIZE - 2]);
    assert DefaultRecord()[1] == CHAR_N;
    assert 1 in CHAR_N;
  }

  function LowByte(w: Word): Octet {
    set k | k in w && k < 8
  }

  function HighByte(w: Word): Octet {
    set k | k in w && k >= 8 :: k - 8
  }

  /** A record as it is meant to be stored: the checksum follows the covered bytes. */
  function Sealed(covered: Octets): (r: Octets)
    ensures |r| == |covered| + 2
  {
    covered + [LowByte(Checksum(covered)), HighByte(Checksum(covered))]
  }

  lemma SealedAccepted(covered: Octets)
    ensures Accepted(Sealed(covered))
  {
    var w := Checksum(covered);
    assert Sealed(covered)[..|covered|] == covered;
    forall k ensures k in w <==> k in Le16(LowByte(w), HighByte(w)) {
      if k >= 8 && k in w {
        assert k - 8 in HighByte(w);
      }
    }
  }

  /** A sealed record is read back unchanged; after an odd number of bit flips the default is delivered. */
  lemma RecordIntegrity(covered: Octets, error: Octets)
    requires |covered| == COVERED && |error| == RECORD_SIZE
    ensures Loaded(true, Sealed(covered)) == Sealed(covered)
    ensures Odd(Ones(error)) ==> Loaded(true, Flip(Sealed(covered), error)) == DefaultRecord()
  {
    SealedAccepted(covered);
    if Odd(Ones(error)) {
      OddFlips(Sealed(covered), error);
    }
  }

  /** The one blind spot of the 39-byte records among errors in adjacent bytes: positions 36 and 37. */
  lemma AdjacentRecordErrors(covered: Octets, error: Octets, i: nat)
    requires |covered| == COVERED && |error| == RECORD_SIZE && i + 1 < RECORD_SIZE
    requires Confined(error, i) && (error[i] != {} || error[i + 1] != {})
    ensures Loaded(true, Flip(Sealed(covered), error)) ==
      if i == 36 && error[36] == error[37] then Flip(Sealed(covered), error) else DefaultRecord()
  {
    SealedAccepted(covered);
    AdjacentErrors(Sealed(covered), error, i);
  }
}
