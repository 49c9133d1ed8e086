/**
 The errors the record checksum does not see, bit by bit. The bits of a record are numbered through, byte by
 byte from the lowest bit on; each belongs to one of the 16 columns of the checksum.
 */
module EepromColumns {
  import opened IdEeprom

  predicate Flipped(e: Octets, p: nat)
    requires p < 8 * |e|
  {
    p % 8 in e[p / 8]
  }

  /** The column of bit `p` when `n` bytes are covered: the sum is taken modulo 16, and the checksum starts anew. */
  function Column(n: nat, p: nat): nat {
    if p < 8 * n then p % 16 else p - 8 * n
  }

  /** The number of flipped bits in column `c` among the first `m` bits. */
  function Flips(e: Octets, c: nat, m: nat): nat
    requires |e| >= 2 && m <= 8 * |e|
  {
    if m == 0 then 0 else Flips(e, c, m - 1) + if Flipped(e, m - 1) && Column(|e| - 2, m - 1) == c then 1 else 0
  }

  // ---------------------------------------------------------------- columns of the syndrome

  /** The position of byte `i` among the covered bytes or within the checksum. */
  function Place(n: nat, i: nat): nat {
    if i < n then i else i - n
  }

  lemma ColumnOfByte(n: nat, i: nat, k: nat)
    requires i < n + 2 && k < 8
    ensures Column(n, 8 * i + k) == 8 * (Place(n, i) % 2) + k
  {
    if i < n {
      var q, r := i / 2, i % 2;
      assert 8 * i + k == 16 * q + (8 * r + k);
    }
  }

  lemma InLane(j: nat, b: Octet, c: nat)
    requires c < 16
    ensures c in Lane(j, b) <==> c / 8 == j % 2 && c % 8 in b
  {
    if j % 2 == 1 && c >= 8 {
      assert c in Shl8(b) <==> c - 8 in b;
    }
  }

  /** The first `t` bits of byte `i`. */
  lemma {:induction false} BitsOfByte(e: Octets, c: nat, i: nat, t: nat)
    requires |e| >= 2 && i < |e| && t <= 8 && c < 16
    ensures var hit := c / 8 == Place(|e| - 2, i) % 2 && c % 8 < t && c % 8 in e[i];
      Flips(e, c, 8 * i + t) == Flips(e, c, 8 * i) + if hit then 1 else 0
    decreases t
  {
    if t > 0 {
      BitsOfByte(e, c, i, t - 1);
      ColumnOfByte(|e| - 2, i, t - 1);
      var p := 8 * i + (t - 1);
      assert p / 8 == i && p % 8 == t - 1;
    }
  }

  lemma ByteOfColumn(e: Octets, c: nat, i: nat)
    requires |e| >= 2 && i < |e| && c < 16
    ensures Flips(e, c, 8 * (i + 1)) == Flips(e, c, 8 * i) + if c in Lane(Place(|e| - 2, i), e[i]) then 1 else 0
  {
    BitsOfByte(e, c, i, 8);
    InLane(Place(|e| - 2, i), e[i], c);
  }

  lemma InXor(x: set<nat>, y: set<nat>, c: nat)
    ensures c in Xor(x, y) <==> (c in x <==> c !in y)
  {
  }

  lemma OddTogether(x: set<nat>, y: set<nat>, c: nat, flips: nat)
    requires c in x <==> Odd(flips)
    ensures c in Xor(x, y) <==> Odd(flips + if c in y then 1 else 0)
  {
  }

  lemma {:induction false} ChecksumColumn(e: Octets, c: nat, m: nat)
    requires |e| >= 2 && m <= |e| - 2 && c < 16
    ensures c in Checksum(e[..m]) <==> Odd(Flips(e, c, 8 * m))
    decreases m
  {
    if m > 0 {
      ChecksumColumn(e, c, m - 1);
      ByteOfColumn(e, c, m - 1);
      assert e[..m][..m - 1] == e[..m - 1];
      OddTogether(Checksum(e[..m - 1]), Lane(m - 1, e[m - 1]), c, Flips(e, c, 8 * (m - 1)));
    }
  }

  /** A bit of the syndrome is set iff an odd number of bits of its column is flipped. */
  lemma SyndromeColumn(e: Octets, c: nat)
    requires |e| >= 2 && c < 16
    ensures c in Syndrome(e) <==> Odd(Flips(e, c, 8 * |e|))
  {
    var n := |e| - 2;
    ChecksumColumn(e, c, n);
    ByteOfColumn(e, c, n);
    ByteOfColumn(e, c, n + 1);
    var lo, hi := Lane(0, e[n]), Lane(1, e[n + 1]);
    OddTogether(Checksum(e[..n]), lo, c, Flips(e, c, 8 * n));
    OddTogether(Xor(Checksum(e[..n]), lo), hi, c, Flips(e, c, 8 * (n + 1)));
    XorAssoc(Checksum(e[..n]), lo, hi);
    assert |e| == n + 2;
  }

  ghost predicate EvenColumns(e: Octets)
    requires |e| >= 2
  {
    forall c :: 0 <= c < 16 ==> !Odd(Flips(e, c, 8 * |e|))
  }

  lemma SyndromeIsWord(e: Octets)
    requires |e| >= 2
    ensures forall c :: c in Syndrome(e) ==> 0 <= c < 16
    ensures Syndrome(e) == {} <==> forall c :: 0 <= c < 16 ==> c !in Syndrome(e)
  {
    var n := |e| - 2;
    forall c | c in Syndrome(e) ensures 0 <= c < 16 {
      InXor(Lane(0, e[n]), Lane(1, e[n + 1]), c);
      InXor(Checksum(e[..n]), Xor(Lane(0, e[n]), Lane(1, e[n + 1])), c);
    }
  }

  /** A corruption of a good record is accepted iff it flips an even number of bits in every column. */
  lemma UndetectedIffEven(good: Octets, error: Octets)
    requires |good| == |error| >= 2 && Accepted(good)
    ensures Accepted(Flip(good, error)) <==> EvenColumns(error)
  {
    UndetectedIff(good, error);
    forall c | 0 <= c < 16 ensures c in Syndrome(error) <==> Odd(Flips(error, c, 8 * |error|)) {
      SyndromeColumn(error, c);
    }
    SyndromeIsWord(error);
  }

  // ---------------------------------------------------------------- bursts

  /** Nothing outside the 16 bits from `q` on is flipped, and something is. */
  ghost predicate Burst(e: Octets, q: nat) {
    && (forall p :: 0 <= p < 8 * |e| && Flipped(e, p) ==> q <= p < q + 16)
    && exists p :: 0 <= p < 8 * |e| && Flipped(e, p)
  }

  /** The only flipped bit of a column counts as one. */
  lemma {:induction false} LoneFlip(e: Octets, p: nat, m: nat)
    requires |e| >= 2 && m <= 8 * |e| && p < 8 * |e| && Flipped(e, p)
    requires forall r :: 0 <= r < 8 * |e| && r != p && Flipped(e, r) ==> Column(|e| - 2, r) != Column(|e| - 2, p)
    ensures Flips(e, Column(|e| - 2, p), m) == if p < m then 1 else 0
    decreases m
  {
    if m > 0 {
      LoneFlip(e, p, m - 1);
      if m - 1 != p && Flipped(e, m - 1) {
        assert Column(|e| - 2, m - 1) != Column(|e| - 2, p);
      }
    }
  }

  /** Every flipped bit of an even pattern shares its column with another one. */
  lemma Partner(e: Octets, p: nat) returns (r: nat)
    requires |e| >= 2 && EvenColumns(e) && p < 8 * |e| && Flipped(e, p)
    ensures r < 8 * |e| && r != p && Flipped(e, r) && Column(|e| - 2, r) == Column(|e| - 2, p)
  {
    var n := |e| - 2;
    if forall r :: 0 <= r < 8 * |e| && r != p && Flipped(e, r) ==> Column(n, r) != Column(n, p) {
      LoneFlip(e, p, 8 * |e|);
      assert false;
    }
    r :| 0 <= r < 8 * |e| && r != p && Flipped(e, r) && Column(n, r) == Column(n, p);
  }

  /** Within 16 bits a column comes twice only across the start of the checksum, eight bits apart. */
  lemma ColumnTwice(n: nat, p: nat, r: nat)
    requires p < r < p + 16 && r < 8 * n + 16 && Column(n, p) == Column(n, r)
    ensures n % 2 == 1 && 8 * (n - 1) <= p < 8 * n && r == p + 8
  {
    if p < 8 * n <= r {
      assert p == 16 * (p / 16) + (r - 8 * n);
    }
  }

  /** In an even burst every flipped bit lies in the last covered byte or the low checksum byte, with its double in the other. */
  lemma Doubled(e: Octets, q: nat, p: nat)
    requires |e| >= 2 && Burst(e, q) && EvenColumns(e) && p < 8 * |e| && Flipped(e, p)
    ensures var n := |e| - 2;
      && n % 2 == 1 && 8 * (n - 1) <= p < 8 * (n + 1)
      && if p < 8 * n then Flipped(e, p + 8) else Flipped(e, p - 8)
  {
    var r := Partner(e, p);
    if p < r {
      ColumnTwice(|e| - 2, p, r);
    } else {
      ColumnTwice(|e| - 2, r, p);
    }
  }

  lemma BitOf(e: Octets, i: nat, k: nat)
    requires i < |e| && k < 8
    ensures Flipped(e, 8 * i + k) <==> k in e[i]
  {
  }

  lemma SomeFlip(e: Octets, i: nat) returns (p: nat)
    requires i < |e| && e[i] != {}
    ensures p / 8 == i && p < 8 * |e| && Flipped(e, p)
  {
    var k :| k in e[i];
    BitOf(e, i, k);
    p := 8 * i + k;
  }

  /** The one kind of burst that cancels. */
  predicate Cancels(e: Octets) {
    var n := |e| - 2;
    n >= 1 && n % 2 == 1 && Confined(e, n - 1) && e[n - 1] == e[n]
  }

  lemma EvenBurstCancels(e: Octets, q: nat)
    requires |e| >= 2 && Burst(e, q) && EvenColumns(e)
    ensures Cancels(e)
  {
    var n := |e| - 2;
    var p :| 0 <= p < 8 * |e| && Flipped(e, p);
    Doubled(e, q, p);
    forall i | 0 <= i < |e| && i != n - 1 && i != n ensures e[i] == {} {
      if e[i] != {} {
        var r := SomeFlip(e, i);
        Doubled(e, q, r);
        assert false;
      }
    }
    forall k | 0 <= k < 8 ensures k in e[n - 1] <==> k in e[n] {
      BitOf(e, n - 1, k);
      BitOf(e, n, k);
      if k in e[n - 1] {
        Doubled(e, q, 8 * (n - 1) + k);
      } else if k in e[n] {
        Doubled(e, q, 8 * n + k);
      }
    }
    assert e[n - 1] == e[n];
  }

  /**
   Every burst within 16 consecutive bits, aligned or not, covered or in the checksum, is detected, with one
   exception: when an odd number of bytes is covered, equal changes to the last covered and the low checksum byte.
   */
  lemma BurstErrors(good: Octets, error: Octets, q: nat)
    requires |good| == |error| >= 2 && Accepted(good) && Burst(error, q)
    ensures Accepted(Flip(good, error)) <==> Cancels(error)
  {
    UndetectedIffEven(good, error);
    if EvenColumns(error) {
      EvenBurstCancels(error, q);
    }
    if Cancels(error) {
      var p :| 0 <= p < 8 * |error| && Flipped(error, p);
      assert error[p / 8] != {};
      AdjacentErrors(good, error, |error| - 3);
    }
  }

  /** For the 39-byte records: a burst delivers the default record unless it changes bytes 36 and 37 alike and nothing else. */
  lemma BurstRecordErrors(covered: Octets, error: Octets, q: nat)
    requires |covered| == COVERED && |error| == RECORD_SIZE && Burst(error, q)
    ensures Loaded(true, Flip(Sealed(covered), error)) ==
      if Confined(error, 36) && error[36] == error[37] then Flip(Sealed(covered), error) else DefaultRecord()
  {
    SealedAccepted(covered);
    BurstErrors(Sealed(covered), error, q);
  }
}
