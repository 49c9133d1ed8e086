/** Two table scans: the pages of an array object, and GPIO lines found by the hash of their name. */
module Lookup {
  import opened Bytes

  // ---------------------------------------------------------------- array pages

  const PAGE: nat := 20
  const U64: nat := 0x1_0000_0000_0000_0000

  type u64 = n: int | 0 <= n < U64

  /** The indices from `lo` up to `hi`. */
  function Range(lo: nat, hi: nat): (r: seq<nat>)
    ensures |r| == if lo < hi then hi - lo else 0
    ensures forall i :: 0 <= i < |r| ==> r[i] == lo + i
  {
    if lo < hi then seq(hi - lo, i => lo + i) else []
  }

  /** What one page shows: at most twenty indices, none past the end. */
  function Page(size: nat, start: nat): seq<nat> {
    Range(start, if start + PAGE < size then start + PAGE else size)
  }

  /** `print_array` with its 64-bit sums; the result lists the indices passed to the getter. */
  method PrintArray(size: u64, start: u64) returns (shown: seq<nat>)
    ensures shown == Page(size, start)
    ensures |shown| == if start >= size then 0 else if size - start < 20 then size - start else 20
    ensures forall i :: 0 <= i < |shown| ==> shown[i] == start + i
  {
    shown := [];
    var i := 0;
    while i < PAGE && (start + i) % U64 < size
      invariant i <= PAGE && (i > 0 ==> start + i <= size)
      invariant shown == Range(start, start + i)
    {
      shown := shown + [(start + i) % U64];
      i := i + 1;
    }
  }

  /** The pages requested one after the other. */
  function Pages(size: nat, n: nat): seq<seq<nat>> {
    if n == 0 then [] else Pages(size, n - 1) + [Page(size, PAGE * (n - 1))]
  }

  /** Asking for starts 0, 20, 40, ... shows every index once and in order. */
  lemma {:induction false} PagesCover(size: nat, n: nat)
    ensures Flatten(Pages(size, n)) == Range(0, if PAGE * n < size then PAGE * n else size)
  {
    if n > 0 {
      PagesCover(size, n - 1);
      FlattenSnoc(Pages(size, n - 1), Page(size, PAGE * (n - 1)));
    }
  }

  // ---------------------------------------------------------------- lines by name

  type u16 = n: int | 0 <= n < 0x10000

  datatype Line = Line(crc: u16, port: nat, pad: nat)

  predicate Distinct(lines: seq<Line>) {
    forall i, j :: 0 <= i < j < |lines| ==> lines[i].crc != lines[j].crc
  }

  /** The compile-time check accepts exactly the tables without two equal hashes. */
  method HashesUnique(lines: seq<Line>) returns (unique: bool)
    ensures unique <==> Distinct(lines)
  {
    for i := 0 to |lines|
      invariant forall a, b :: 0 <= a < i && a < b < |lines| ==> lines[a].crc != lines[b].crc
    {
      for j := i + 1 to |lines|
        invariant forall b :: i < b < j ==> lines[i].crc != lines[b].crc
      {
        if lines[i].crc == lines[j].crc { return false; }
      }
    }
    return true;
  }

  /** The first line with a hash. */
  function Scan(lines: seq<Line>, crc: u16): (r: Option<Line>)
    ensures r.Some? ==> r.value in lines && r.value.crc == crc
    ensures r.None? ==> forall l :: l in lines ==> l.crc != crc
  {
    if lines == [] then None else if lines[0].crc == crc then Some(lines[0]) else Scan(lines[1..], crc)
  }

  /** `GetIoLineByName` for any hash function. */
  method GetIoLineByName(lines: seq<Line>, hash: string -> u16, name: string) returns (found: Option<Line>)
    ensures found == Scan(lines, hash(name))
  {
    var crc := hash(name);
    for i := 0 to |lines|
      invariant Scan(lines, crc) == Scan(lines[i..], crc)
    {
      assert lines[i..][0] == lines[i] && lines[i..][1..] == lines[i + 1..];
      if lines[i].crc == crc { return Some(lines[i]); }
    }
    return None;
  }

  /** A line as it is written down, before its name is hashed. */
  datatype Entry = Entry(name: string, port: nat, pad: nat)

  function Hashed(e: Entry, hash: string -> u16): Line {
    Line(hash(e.name), e.port, e.pad)
  }

  /** The table the compiler makes of the entries: the names are gone. */
  function Compile(entries: seq<Entry>, hash: string -> u16): seq<Line> {
    seq(|entries|, i requires 0 <= i < |entries| => Hashed(entries[i], hash))
  }

  /** The lookup that is meant: the first entry with the name. */
  function ByName(entries: seq<Entry>, name: string): Option<Entry> {
    if entries == [] then None else if entries[0].name == name then Some(entries[0]) else ByName(entries[1..], name)
  }

  /** Among lines with the same hash the first is found. */
  lemma {:induction false} ScanIsFirst(lines: seq<Line>, crc: u16, i: nat)
    requires i < |lines| && lines[i].crc == crc && forall j :: 0 <= j < i ==> lines[j].crc != crc
    ensures Scan(lines, crc) == Some(lines[i])
    decreases |lines|
  {
    if i > 0 {
      ScanIsFirst(lines[1..], crc, i - 1);
    }
  }

  lemma ScanIsOwn(lines: seq<Line>, crc: u16, i: nat)
    requires Distinct(lines) && i < |lines| && lines[i].crc == crc
    ensures Scan(lines, crc) == Some(lines[i])
  {
    ScanIsFirst(lines, crc, i);
  }

  lemma {:induction false} ByNameFinds(entries: seq<Entry>, name: string) returns (i: nat)
    ensures ByName(entries, name).Some? ==> i < |entries| && entries[i].name == name && ByName(entries, name).value == entries[i]
    ensures ByName(entries, name).None? ==> forall j :: 0 <= j < |entries| ==> entries[j].name != name
    decreases |entries|
  {
    i := 0;
    if entries != [] && entries[0].name != name {
      var k := ByNameFinds(entries[1..], name);
      i := k + 1;
    }
  }

  predicate Collides(entries: seq<Entry>, hash: string -> u16, name: string) {
    exists i :: 0 <= i < |entries| && hash(entries[i].name) == hash(name)
  }

  /**
   In a table that passes the compile-time check every listed name finds its own line. A name that is not
   listed finds nothing, as it should, if and only if no listed name has its hash.
   */
  lemma IndexMatchesNames(entries: seq<Entry>, hash: string -> u16, name: string)
    requires Distinct(Compile(entries, hash))
    ensures var found, meant := Scan(Compile(entries, hash), hash(name)), ByName(entries, name);
      && (meant.Some? ==> found == Some(Hashed(meant.value, hash)))
      && (meant.None? ==> (found.None? <==> !Collides(entries, hash, name)))
      && (forall i :: 0 <= i < |entries| && hash(entries[i].name) == hash(name) ==> found == Some(Hashed(entries[i], hash)))
  {
    var lines := Compile(entries, hash);
    var k := ByNameFinds(entries, name);
    if ByName(entries, name).Some? {
      ScanIsOwn(lines, hash(name), k);
    }
    forall i | 0 <= i < |entries| && hash(entries[i].name) == hash(name)
      ensures Scan(lines, hash(name)) == Some(Hashed(entries[i], hash))
    {
      ScanIsOwn(lines, hash(name), i);
    }
  }

  /** A name that is not listed gets the line of the listed name whose hash it shares. */
  lemma CollisionFindsOther(port: nat, pad: nat, hash: string -> u16)
    requires hash("X") == hash("LED")
    ensures var table := [Entry("LED", port, pad)];
      && Distinct(Compile(table, hash)) && ByName(table, "X") == None
      && Scan(Compile(table, hash), hash("X")) == Some(Hashed(table[0], hash))
  {
    var table := [Entry("LED", port, pad)];
    assert hash(table[0].name) == hash("X");
    IndexMatchesNames(table, hash, "X");
  }
}
