/**
 Posting a JSON body to a data object: the attributes the body names are written over a copy of the
 record, and a version counter records whether anything changed. JSON parsing is an oracle that yields,
 per attribute name and type, the bytes the C code would store.
 */
module ObjectMerge {
  import opened Bytes

  datatype Kind = IntKind | BoolKind | DoubleKind | StringKind | OtherKind

  datatype Attribute = Attribute(name: string, kind: Kind, offset: nat, size: nat)

  type Int32Bytes = s: seq<byte> | |s| == 4 witness [0, 0, 0, 0]
  type DoubleBytes = s: seq<byte> | |s| == 8 witness [0, 0, 0, 0, 0, 0, 0, 0]

  /** What a body says about each name; a string is delivered cut to the size of its attribute. */
  datatype Body = Body(
    len: nat,
    int32: string -> Option<Int32Bytes>,
    flag: string -> Option<byte>,
    double: string -> Option<DoubleBytes>,
    text: (string, nat) -> seq<byte>)

  /** The bytes a body stores into an attribute, none when it does not name it with a fitting type. */
  function Patch(body: Body, a: Attribute): seq<byte> {
    match a.kind
    case IntKind => var v := body.int32(a.name); if v.Some? then v.value else []
    case BoolKind => var v := body.flag(a.name); if v.Some? then [v.value] else []
    case DoubleKind => var v := body.double(a.name); if v.Some? then v.value else []
    case StringKind => var v := body.text(a.name, a.size); if |v| <= a.size then v else v[..a.size]
    case OtherKind => []
  }

  /** The bytes an attribute occupies in the C structure. */
  function Room(a: Attribute): nat {
    match a.kind
    case IntKind => 4
    case BoolKind => 1
    case DoubleKind => 8
    case StringKind => a.size
    case OtherKind => 0
  }

  /** Every attribute lies inside the structure, as offsetof guarantees. */
  predicate Fits(table: seq<Attribute>, size: nat) {
    forall i :: 0 <= i < |table| ==> table[i].offset + Room(table[i]) <= size
  }

  predicate Disjoint(table: seq<Attribute>) {
    forall i, j :: 0 <= i < j < |table| ==>
      table[i].offset + Room(table[i]) <= table[j].offset || table[j].offset + Room(table[j]) <= table[i].offset
  }

  // ---------------------------------------------------------------- specification

  predicate Covers(body: Body, a: Attribute, k: nat) {
    a.offset <= k < a.offset + |Patch(body, a)|
  }

  /** The byte the body puts at position `k`: that of the last attribute reaching it. */
  function Written(table: seq<Attribute>, body: Body, k: nat): Option<byte> {
    if table == [] then None else
    var last := table[|table| - 1];
    if Covers(body, last, k) then Some(Patch(body, last)[k - last.offset])
    else Written(table[..|table| - 1], body, k)
  }

  function Merge(data: seq<byte>, table: seq<Attribute>, body: Body): (r: seq<byte>)
    ensures |r| == |data|
  {
    seq(|data|, k requires 0 <= k < |data| =>
      var w := Written(table, body, k); if w.Some? then w.value else data[k])
  }

  /** A record behind its getter and setter (none when read-only), and the change counter of the server. */
  datatype Object = Object(data: seq<byte>, writable: bool, version: size)

  function Post(o: Object, table: seq<Attribute>, body: Body): Object {
    if body.len == 0 || o.data == [] then o else
    var merged := Merge(o.data, table, body);
    Object(if o.writable then merged else o.data, o.writable,
           if merged != o.data then AddSize(o.version, 1) else o.version)
  }

  // ---------------------------------------------------------------- the C code

  method Store(tmp: array<byte>, offset: nat, bytes: seq<byte>)
    requires offset + |bytes| <= tmp.Length
    modifies tmp
    ensures forall k :: 0 <= k < tmp.Length ==>
      tmp[k] == if offset <= k < offset + |bytes| then bytes[k - offset] else old(tmp[k])
  {
    for i := 0 to |bytes|
      invariant forall k :: 0 <= k < tmp.Length ==>
        tmp[k] == if offset <= k < offset + i then bytes[k - offset] else old(tmp[k])
    {
      tmp[offset + i] := bytes[i];
    }
  }

  lemma PatchFits(body: Body, a: Attribute)
    ensures |Patch(body, a)| <= Room(a)
  {
  }

  class Server {
    var data: seq<byte>
    var writable: bool
    var version: size

    ghost function View(): Object
      reads this
    {
      Object(data, writable, version)
    }

    /** `handle_object`; the result is the record the reply prints. */
    method HandleObject(table: seq<Attribute>, body: Body) returns (shown: seq<byte>)
      requires Fits(table, |data|)
      modifies this
      ensures View() == Post(old(View()), table, body)
      ensures shown == data
    {
      shown := data;
      if body.len > 0 && |data| > 0 {
        var copy := data;
        var tmp := new byte[|copy|](i requires 0 <= i < |copy| => copy[i]);
        for i := 0 to |table|
          invariant data == old(data) == copy && version == old(version) && writable == old(writable)
          invariant forall k :: 0 <= k < tmp.Length ==>
            tmp[k] == var w := Written(table[..i], body, k); if w.Some? then w.value else copy[k]
        {
          PatchFits(body, table[i]);
          assert table[..i + 1][..i] == table[..i];
          Store(tmp, table[i].offset, Patch(body, table[i]));
        }
        assert table[..|table|] == table;
        assert tmp[..] == Merge(copy, table, body);
        if tmp[..] != data { version := AddSize(version, 1); }
        if writable { data := tmp[..]; }
        shown := data;
      }
    }
  }

  // ---------------------------------------------------------------- what posting does

  /** For every table: a byte no named attribute reaches keeps its value. */
  lemma {:induction false} UnwrittenUnlessCovered(table: seq<Attribute>, body: Body, k: nat)
    ensures Written(table, body, k).Some? <==> exists i :: 0 <= i < |table| && Covers(body, table[i], k)
    decreases |table|
  {
    if table != [] {
      var m := |table| - 1;
      UnwrittenUnlessCovered(table[..m], body, k);
      if Covers(body, table[m], k) {
      } else if exists i :: 0 <= i < |table| && Covers(body, table[i], k) {
        var i :| 0 <= i < |table| && Covers(body, table[i], k);
        assert table[..m][i] == table[i];
      }
    }
  }

  /** For every table, overlapping attributes included: the last attribute that reaches a byte decides it. */
  lemma {:induction false} WrittenByLast(table: seq<Attribute>, body: Body, i: nat, k: nat)
    requires i < |table| && Covers(body, table[i], k)
    requires forall j :: i < j < |table| ==> !Covers(body, table[j], k)
    ensures Written(table, body, k) == Some(Patch(body, table[i])[k - table[i].offset])
    decreases |table|
  {
    if i < |table| - 1 {
      WrittenByLast(table[..|table| - 1], body, i, k);
    }
  }

  /** With disjoint attributes the order of the table does not matter: each attribute speaks for its own bytes. */
  lemma {:induction false} WrittenByOwner(table: seq<Attribute>, body: Body, i: nat, k: nat)
    requires Disjoint(table) && i < |table|
    requires table[i].offset <= k < table[i].offset + Room(table[i])
    ensures Written(table, body, k) ==
      if Covers(body, table[i], k) then Some(Patch(body, table[i])[k - table[i].offset]) else None
    decreases |table|
  {
    var m := |table| - 1;
    PatchFits(body, table[m]);
    if i < m {
      assert table[..m][i] == table[i];
      WrittenByOwner(table[..m], body, i, k);
    } else {
      UnwrittenUnlessCovered(table[..m], body, k);
      forall j | 0 <= j < m ensures !Covers(body, table[..m][j], k) {
        PatchFits(body, table[j]);
      }
    }
  }

  /**
   Posting to a table of disjoint attributes: the bytes of each attribute become what the body says about
   it and keep their value where it says nothing; all other bytes keep their value; and the version grows
   by one exactly when the merged record differs.
   */
  lemma PostChangesOnlyNamed(o: Object, table: seq<Attribute>, body: Body)
    requires Fits(table, |o.data|) && Disjoint(table) && o.writable && body.len > 0 && o.data != []
    ensures var o' := Post(o, table, body);
      && |o'.data| == |o.data| && o'.writable
      && (forall i, k :: 0 <= i < |table| && table[i].offset <= k < table[i].offset + Room(table[i]) ==>
            o'.data[k] == if Covers(body, table[i], k) then Patch(body, table[i])[k - table[i].offset] else o.data[k])
      && (forall k :: 0 <= k < |o.data| && (forall i :: 0 <= i < |table| ==> !Covers(body, table[i], k)) ==>
            o'.data[k] == o.data[k])
      && o'.version == (if o'.data == o.data then o.version else AddSize(o.version, 1))
  {
    var o' := Post(o, table, body);
    forall i, k | 0 <= i < |table| && table[i].offset <= k < table[i].offset + Room(table[i])
      ensures o'.data[k] == if Covers(body, table[i], k) then Patch(body, table[i])[k - table[i].offset] else o.data[k]
    {
      WrittenByOwner(table, body, i, k);
    }
    forall k | 0 <= k < |o.data| && (forall i :: 0 <= i < |table| ==> !Covers(body, table[i], k))
      ensures o'.data[k] == o.data[k]
    {
      UnwrittenUnlessCovered(table, body, k);
    }
  }

  /** What the attribute holds after the post: `v` where the body gives it a value, its old bytes otherwise. */
  ghost predicate Stores(o: Object, o': Object, at: nat, room: nat, v: seq<byte>) {
    && at + room <= |o.data| == |o'.data| && |v| <= room
    && o'.data[at..at + |v|] == v
    && (forall k :: at + |v| <= k < at + room ==> o'.data[k] == o.data[k])
  }

  /**
   Attribute by attribute, from the body alone: a number goes to four bytes of an int and eight of a double, a truth
   value to one byte, a text to as many bytes as it has and the attribute takes; what the body does not give with the
   fitting type, and attributes of any other kind, stay as they are.
   */
  lemma PostPerKind(o: Object, table: seq<Attribute>, body: Body, i: nat)
    requires Fits(table, |o.data|) && Disjoint(table) && o.writable && body.len > 0 && o.data != [] && i < |table|
    ensures var a, o' := table[i], Post(o, table, body);
      match a.kind
      case IntKind => Stores(o, o', a.offset, 4, if body.int32(a.name).Some? then body.int32(a.name).value else [])
      case BoolKind => Stores(o, o', a.offset, 1, if body.flag(a.name).Some? then [body.flag(a.name).value] else [])
      case DoubleKind => Stores(o, o', a.offset, 8, if body.double(a.name).Some? then body.double(a.name).value else [])
      case StringKind =>
        var v := body.text(a.name, a.size); Stores(o, o', a.offset, a.size, if |v| < a.size then v else v[..a.size])
      case OtherKind => Stores(o, o', a.offset, 0, [])
  {
    var a, o' := table[i], Post(o, table, body);
    PostChangesOnlyNamed(o, table, body);
    PatchFits(body, a);
    assert o'.data[a.offset..a.offset + |Patch(body, a)|] == Patch(body, a);
    assert Stores(o, o', a.offset, Room(a), Patch(body, a));
  }

  lemma MergeTwice(data: seq<byte>, table: seq<Attribute>, body: Body)
    ensures Merge(Merge(data, table, body), table, body) == Merge(data, table, body)
  {
  }

  /**
   Posting the same body again, for every table: the record stays as it is. The version stays too exactly
   when the object is writable or the body changes nothing; a read-only object counts every such post.
   */
  lemma PostAgain(o: Object, table: seq<Attribute>, body: Body)
    ensures var once := Post(o, table, body); var twice := Post(once, table, body);
      && twice.data == once.data && twice.writable == once.writable
      && (twice.version == once.version <==>
            o.writable || body.len == 0 || Merge(o.data, table, body) == o.data)
  {
    MergeTwice(o.data, table, body);
    if o.data == [] {
      assert Merge(o.data, table, body) == o.data;
    }
  }

  function PostTimes(o: Object, table: seq<Attribute>, body: Body, n: nat): Object {
    if n == 0 then o else Post(PostTimes(o, table, body, n - 1), table, body)
  }

  predicate Changes(o: Object, table: seq<Attribute>, body: Body) {
    body.len > 0 && Merge(o.data, table, body) != o.data
  }

  lemma PostUnchanged(o: Object, table: seq<Attribute>, body: Body)
    requires !Changes(o, table, body)
    ensures Post(o, table, body) == o
  {
  }

  lemma PostChanged(o: Object, table: seq<Attribute>, body: Body)
    requires Changes(o, table, body)
    ensures Post(o, table, body)
         == o.(data := if o.writable then Merge(o.data, table, body) else o.data, version := AddSize(o.version, 1))
  {
    assert |Merge(o.data, table, body)| == |o.data|;
  }

  lemma AddOne(v: size, n: nat)
    ensures AddSize(AddSize(v, n), 1) == AddSize(v, n + 1)
  {
  }

  /** Any number of equal posts: a writable object counts one change at most, a read-only one counts them all. */
  lemma {:induction false} PostManyTimes(o: Object, table: seq<Attribute>, body: Body, n: nat)
    requires n > 0
    ensures PostTimes(o, table, body, n) ==
      if !Changes(o, table, body) then o
      else if o.writable then Post(o, table, body)
      else o.(version := AddSize(o.version, n))
  {
    var before := PostTimes(o, table, body, n - 1);
    if n > 1 {
      PostManyTimes(o, table, body, n - 1);
    }
    if !Changes(o, table, body) {
      PostUnchanged(o, table, body);
    } else if n == 1 {
      PostChanged(o, table, body);
    } else if o.writable {
      PostChanged(o, table, body);
      MergeTwice(o.data, table, body);
      PostUnchanged(before, table, body);
    } else {
      PostChanged(before, table, body);
      AddOne(o.version, n - 1);
    }
  }
}
