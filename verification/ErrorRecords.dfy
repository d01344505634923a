/**
 The walk over the sections of a generic error status block (acpi/ghes.h), with the record
 layout of acpi/actbl1.h: little-endian fields, a 64-byte header, and eight bytes more from
 revision 0x0300 on. Offsets count from the first byte after the status block, and memory is
 total on both sides of it, because nothing stops the walk from leaving the block.
 */
module ErrorRecords {
  import opened Bits

  type Memory = int -> Byte

  const HEADER: nat := 64
  const HEADER_V300: nat := 72

  // ---------------------------------------------------------------- what the code computes

  /** A value brought into the range of `int`, two's complement: all that ever comes here is below 3 * 2^31. */
  function ToInt32(x: int): (r: int)
    requires 0 <= x + TWO31 < TWO32 + TWO32
    ensures 0 <= r + TWO31 < TWO32
  {
    if x < TWO31 then x else x - TWO32
  }

  /** The value of little-endian bytes. */
  function Word16(b0: nat, b1: nat): nat { b0 + 0x100 * b1 }

  function Word32(b0: Byte, b1: Byte, b2: Byte, b3: Byte): (x: nat)
    ensures x < TWO32
  {
    assert b0 + 0x100 * b1 < 0x1_0000 && b2 + 0x100 * b3 < 0x1_0000;
    b0 + 0x100 * (b1 + 0x100 * (b2 + 0x100 * b3))
  }

  function Revision(mem: Memory, at: int): nat {
    Word16(mem(at + 20), mem(at + 21))
  }

  function ErrorDataLength(mem: Memory, at: int): nat {
    Word32(mem(at + 24), mem(at + 25), mem(at + 26), mem(at + 27))
  }

  /** `acpi_hest_get_size` */
  function HeaderSize(revision: nat): nat {
    if revision / 0x100 >= 3 then HEADER_V300 else HEADER
  }

  /** `acpi_hest_get_payload` */
  function Payload(mem: Memory, at: int): int {
    if Revision(mem, at) / 0x100 >= 3 then at + HEADER_V300 else at + HEADER
  }

  /** `acpi_hest_get_record_size`: an `int` sum of two `int`s. */
  function RecordSize(mem: Memory, at: int): int {
    ToInt32(HeaderSize(Revision(mem, at)) + ToInt32(ErrorDataLength(mem, at)))
  }

  /** `acpi_hest_get_next` */
  function Next(mem: Memory, at: int): int {
    at + RecordSize(mem, at)
  }

  /** `visited` is the complete list of sections the loop goes through from offset `at` on. */
  ghost predicate Walk(mem: Memory, dataLength: nat, at: int, visited: seq<int>)
    decreases |visited|
  {
    if at >= dataLength then visited == []
    else visited != [] && visited[0] == at && Walk(mem, dataLength, Next(mem, at), visited[1..])
  }

  // ---------------------------------------------------------------- what the layout says

  /** One record; the fields the walk does not look at are kept as their bytes. */
  datatype Record = Record(head: seq<Byte>, revision: nat, flags: seq<Byte>, fru: seq<Byte>,
                           stamp: seq<Byte>, payload: seq<Byte>)

  predicate ValidRecord(r: Record) {
    && |r.head| == 20 && |r.flags| == 2 && |r.fru| == 36
    && r.revision < TWO16 && |r.payload| < TWO32
    && |r.stamp| == if r.revision < 0x300 then 0 else 8
  }

  predicate ValidRecords(rs: seq<Record>) {
    forall i :: 0 <= i < |rs| ==> ValidRecord(rs[i])
  }

  function Size(r: Record): nat {
    64 + |r.stamp| + |r.payload|
  }

  function Byte0(x: nat): Byte { x % 0x100 }

  function Little16(x: nat): (b: seq<Byte>)
    ensures |b| == 2
  {
    [Byte0(x), Byte0(x / 0x100)]
  }

  function Little32(x: nat): (b: seq<Byte>)
    ensures |b| == 4
  {
    [Byte0(x), Byte0(x / 0x100), Byte0(x / 0x100 / 0x100), Byte0(x / 0x100 / 0x100 / 0x100)]
  }

  function Encode(r: Record): (b: seq<Byte>)
    requires ValidRecord(r)
    ensures |b| == Size(r)
  {
    r.head + Little16(r.revision) + r.flags + Little32(|r.payload|) + r.fru + r.stamp + r.payload
  }

  /** The records back to back. */
  function EncodeAll(rs: seq<Record>): (b: seq<Byte>)
    requires ValidRecords(rs)
  {
    if rs == [] then [] else Encode(rs[0]) + EncodeAll(rs[1..])
  }

  function Bytes(mem: Memory, at: int, n: nat): (b: seq<Byte>)
    ensures |b| == n
  {
    seq(n, i => mem(at + i))
  }

  ghost predicate Holds(mem: Memory, at: int, b: seq<Byte>) {
    Bytes(mem, at, |b|) == b
  }

  /** Where each record starts, the first one at `at`. */
  function Starts(rs: seq<Record>, at: int): (v: seq<int>)
    ensures |v| == |rs|
  {
    if rs == [] then [] else [at] + Starts(rs[1..], at + Size(rs[0]))
  }

  predicate Small(rs: seq<Record>) {
    forall i :: 0 <= i < |rs| ==> Size(rs[i]) < TWO31
  }

  /** The layout in numbers: revision at 20, length at 24, payload at 64 or, from revision 0x0300 on, at 72. */
  lemma Layout(r: Record)
    requires ValidRecord(r)
    ensures var b, k := Encode(r), |r.payload|;
            && b[20..22] == [r.revision % 0x100, r.revision / 0x100]
            && b[24..28] == [k % 0x100, k / 0x100 % 0x100, k / 0x1_0000 % 0x100, k / 0x100_0000]
            && b[if r.revision < 0x300 then 64 else 72..] == r.payload
  {
    LittleBytes(r.revision, |r.payload|);
    Slices(r.head, Little16(r.revision), r.flags, Little32(|r.payload|), r.fru + r.stamp, r.payload);
    var b := Encode(r);
    assert b == r.head + Little16(r.revision) + r.flags + Little32(|r.payload|) + (r.fru + r.stamp) + r.payload;
  }

  lemma LittleBytes(revision: nat, k: nat)
    requires revision < TWO16 && k < TWO32
    ensures Little16(revision) == [revision % 0x100, revision / 0x100]
    ensures Little32(k) == [k % 0x100, k / 0x100 % 0x100, k / 0x1_0000 % 0x100, k / 0x100_0000]
  {
    DivDiv(k, 0x100, 0x100);
    DivDiv(k, 0x1_0000, 0x100);
  }

  lemma Slices(a: seq<Byte>, b: seq<Byte>, c: seq<Byte>, d: seq<Byte>, e: seq<Byte>, f: seq<Byte>)
    requires |a| == 20 && |b| == 2 && |c| == 2 && |d| == 4
    ensures var all := a + b + c + d + e + f;
            all[20..22] == b && all[24..28] == d && all[28 + |e|..] == f
  {
  }

  // ---------------------------------------------------------------- one record

  lemma HoldsParts(mem: Memory, at: int, a: seq<Byte>, b: seq<Byte>)
    ensures Holds(mem, at, a + b) <==> Holds(mem, at, a) && Holds(mem, at + |a|, b)
  {
    var whole := Bytes(mem, at, |a| + |b|);
    assert whole == Bytes(mem, at, |a|) + Bytes(mem, at + |a|, |b|);
    assert whole[..|a|] == Bytes(mem, at, |a|) && whole[|a|..] == Bytes(mem, at + |a|, |b|);
    assert (a + b)[..|a|] == a && (a + b)[|a|..] == b;
  }

  lemma HoldsAt(mem: Memory, at: int, b: seq<Byte>, i: nat)
    requires Holds(mem, at, b) && i < |b|
    ensures mem(at + i) == b[i]
  {
    assert Bytes(mem, at, |b|)[i] == mem(at + i);
  }

  lemma Little32Value(x: nat)
    requires x < TWO32
    ensures Word32(Little32(x)[0], Little32(x)[1], Little32(x)[2], Little32(x)[3]) == x
  {
    var x1 := x / 0x100;
    var x2 := x1 / 0x100;
    assert x1 < 0x100_0000 && x2 < 0x1_0000;
  }

  lemma LowByte(b: Byte, x: nat)
    ensures Byte0(b + 0x100 * x) == b && (b + 0x100 * x) / 0x100 == x
  {
  }

  lemma Little32Bytes(b0: Byte, b1: Byte, b2: Byte, b3: Byte)
    ensures Little32(Word32(b0, b1, b2, b3)) == [b0, b1, b2, b3]
  {
    LowByte(b3, 0);
    LowByte(b2, b3);
    LowByte(b1, b2 + 0x100 * b3);
    LowByte(b0, b1 + 0x100 * (b2 + 0x100 * b3));
  }

  /** A record in memory, field by field. */
  lemma HoldsFields(mem: Memory, at: int, r: Record)
    requires ValidRecord(r)
    ensures Holds(mem, at, Encode(r)) <==>
            && Holds(mem, at, r.head) && Holds(mem, at + 20, Little16(r.revision)) && Holds(mem, at + 22, r.flags)
            && Holds(mem, at + 24, Little32(|r.payload|)) && Holds(mem, at + 28, r.fru)
            && Holds(mem, at + 64, r.stamp) && Holds(mem, at + 64 + |r.stamp|, r.payload)
  {
    var a := r.head;
    var b := a + Little16(r.revision);
    var c := b + r.flags;
    var d := c + Little32(|r.payload|);
    var e := d + r.fru;
    var f := e + r.stamp;
    HoldsParts(mem, at, f, r.payload);
    HoldsParts(mem, at, e, r.stamp);
    HoldsParts(mem, at, d, r.fru);
    HoldsParts(mem, at, c, Little32(|r.payload|));
    HoldsParts(mem, at, b, r.flags);
    HoldsParts(mem, at, a, Little16(r.revision));
  }

  /** The two fields the walk reads, and what it makes of them. */
  lemma ReadsRecord(mem: Memory, at: int, r: Record)
    requires ValidRecord(r) && Holds(mem, at, Encode(r))
    ensures Revision(mem, at) == r.revision && ErrorDataLength(mem, at) == |r.payload|
    ensures Bytes(mem, Payload(mem, at), |r.payload|) == r.payload
    ensures HeaderSize(r.revision) + |r.payload| == Size(r)
  {
    HoldsFields(mem, at, r);
    ReadsRevision(mem, at, r.revision);
    ReadsLength(mem, at, |r.payload|);
  }

  lemma ReadsRevision(mem: Memory, at: int, revision: nat)
    requires revision < TWO16 && Holds(mem, at + 20, Little16(revision))
    ensures Revision(mem, at) == revision
  {
    HoldsAt(mem, at + 20, Little16(revision), 0);
    HoldsAt(mem, at + 20, Little16(revision), 1);
  }

  lemma ReadsLength(mem: Memory, at: int, length: nat)
    requires length < TWO32 && Holds(mem, at + 24, Little32(length))
    ensures ErrorDataLength(mem, at) == length
  {
    HoldsAt(mem, at + 24, Little32(length), 0);
    HoldsAt(mem, at + 24, Little32(length), 1);
    HoldsAt(mem, at + 24, Little32(length), 2);
    HoldsAt(mem, at + 24, Little32(length), 3);
    Little32Value(length);
  }

  /** The record the bytes at `at` spell. */
  function Parse(mem: Memory, at: int): (r: Record)
    ensures ValidRecord(r)
  {
    var revision, length := Revision(mem, at), ErrorDataLength(mem, at);
    Record(Bytes(mem, at, 20), revision, Bytes(mem, at + 22, 2), Bytes(mem, at + 28, 36),
           Bytes(mem, at + 64, if revision < 0x300 then 0 else 8),
           Bytes(mem, at + HeaderSize(revision), length))
  }

  /** Memory always holds the record it spells. */
  lemma ParseHolds(mem: Memory, at: int)
    ensures Holds(mem, at, Encode(Parse(mem, at)))
  {
    var r := Parse(mem, at);
    assert Bytes(mem, at + 20, 2) == Little16(r.revision);
    LengthBytes(mem, at);
    HoldsFields(mem, at, r);
  }

  /** What was encoded is what is parsed. */
  lemma ParseEncoded(mem: Memory, at: int, r: Record)
    requires ValidRecord(r) && Holds(mem, at, Encode(r))
    ensures Parse(mem, at) == r
  {
    HoldsFields(mem, at, r);
    ReadsRecord(mem, at, r);
  }

  lemma LengthBytes(mem: Memory, at: int)
    ensures Bytes(mem, at + 24, 4) == Little32(ErrorDataLength(mem, at))
  {
    Little32Bytes(mem(at + 24), mem(at + 25), mem(at + 26), mem(at + 27));
  }

  /** The step to the next section: exact below 2^31 bytes, 4 GiB too low from there to 2^32. */
  lemma NextRecord(mem: Memory, at: int, r: Record)
    requires ValidRecord(r) && Holds(mem, at, Encode(r)) && Size(r) < TWO32
    ensures Next(mem, at) == if Size(r) < TWO31 then at + Size(r) else at + Size(r) - TWO32
  {
    ReadsRecord(mem, at, r);
    SizeSum(HeaderSize(r.revision), |r.payload|);
  }

  lemma SizeSum(header: nat, length: nat)
    requires length < TWO32 && header + length <= TWO32 && header <= HEADER_V300
    ensures ToInt32(header + ToInt32(length))
         == if header + length < TWO31 then header + length else header + length - TWO32
  {
  }

  // ---------------------------------------------------------------- the whole walk

  /** Records that fill the data exactly and are each below 2^31 bytes are visited one by one. */
  lemma {:induction false} SmallRecordsVisited(
    mem: Memory, dataLength: nat, at: nat, rs: seq<Record>, visited: seq<int>)
    requires AtRecords(mem, dataLength, at, rs)
    ensures Walk(mem, dataLength, at, visited) <==> visited == Starts(rs, at)
    decreases |rs|
  {
    EmptyEncoding(rs);
    if rs != [] && visited != [] {
      var next, rest, later := SmallStep(mem, dataLength, at, rs, visited);
      SmallRecordsVisited(mem, dataLength, next, rest, later);
    }
  }

  /** The walk over small records goes from the first one to the rest. */
  lemma SmallStep(mem: Memory, dataLength: nat, at: nat, rs: seq<Record>, visited: seq<int>)
    returns (next: nat, rest: seq<Record>, later: seq<int>)
    requires AtRecords(mem, dataLength, at, rs) && rs != [] && visited != []
    ensures |rest| < |rs| && AtRecords(mem, dataLength, next, rest)
    ensures Walk(mem, dataLength, at, visited) <==> visited[0] == at && Walk(mem, dataLength, next, later)
    ensures visited == Starts(rs, at) <==> visited[0] == at && later == Starts(rest, next)
  {
    next := NextOfRecords(mem, at, rs);
    rest, later := rs[1..], visited[1..];
    SmallRest(rs, rest);
    WalkOnce(mem, dataLength, at, next, visited, later);
    StartsOnce(rs, at, next, visited, later);
  }

  lemma SmallRest(rs: seq<Record>, rest: seq<Record>)
    requires rs != [] && rest == rs[1..] && ValidRecords(rs) && Small(rs)
    ensures ValidRecords(rest) && Small(rest) && Size(rs[0]) < TWO31
  {
    assert forall i :: 0 <= i < |rest| ==> rest[i] == rs[i + 1];
  }

  lemma WalkOnce(mem: Memory, dataLength: nat, at: int, next: int, visited: seq<int>, later: seq<int>)
    requires at < dataLength && next == Next(mem, at) && visited != [] && later == visited[1..]
    ensures Walk(mem, dataLength, at, visited) <==> visited[0] == at && Walk(mem, dataLength, next, later)
  {
  }

  lemma StartsOnce(rs: seq<Record>, at: int, next: int, visited: seq<int>, later: seq<int>)
    requires rs != [] && next == at + Size(rs[0]) && visited != [] && later == visited[1..]
    ensures visited == Starts(rs, at) <==> visited[0] == at && later == Starts(rs[1..], next)
  {
    assert visited == [visited[0]] + later;
  }

  /** A record of 2^31 bytes or more sends the walk to an offset before the data. */
  lemma {:induction false} LargeRecordStrays(
    mem: Memory, dataLength: nat, at: nat, rs: seq<Record>, visited: seq<int>)
    requires AtLargeRecords(mem, dataLength, at, rs) && Walk(mem, dataLength, at, visited)
    ensures exists a :: a in visited && a < 0
    decreases |rs|
  {
    var next, rest, later := LargeStep(mem, dataLength, at, rs, visited);
    var a;
    if next < 0 {
      a := next;
    } else {
      LargeRecordStrays(mem, dataLength, next, rest, later);
      a :| a in later && a < 0;
    }
    assert a in visited;
  }

  /** From `at` to the end of the data there are exactly these records, one of them too large. */
  ghost predicate AtLargeRecords(mem: Memory, dataLength: nat, at: int, rs: seq<Record>) {
    && ValidRecords(rs) && !Small(rs) && Holds(mem, at, EncodeAll(rs))
    && 0 <= at && at + |EncodeAll(rs)| == dataLength < TWO32
  }

  lemma LargeStep(mem: Memory, dataLength: nat, at: nat, rs: seq<Record>, visited: seq<int>)
    returns (next: int, rest: seq<Record>, later: seq<int>)
    requires AtLargeRecords(mem, dataLength, at, rs) && Walk(mem, dataLength, at, visited)
    ensures |rest| < |rs| && forall a :: a in later ==> a in visited
    ensures next < 0 ==> next in visited
    ensures next >= 0 ==> AtLargeRecords(mem, dataLength, next, rest) && Walk(mem, dataLength, next, later)
  {
    next := NextOfRecords(mem, at, rs);
    rest, later := rs[1..], visited[1..];
    if next < 0 {
      assert later[0] == next;
    } else {
      var i :| 0 <= i < |rs| && Size(rs[i]) >= TWO31;
      assert rest[i - 1] == rs[i];
    }
  }

  /** The step from the first of the records, and the others behind it. */
  lemma NextOfRecords(mem: Memory, at: int, rs: seq<Record>) returns (next: int)
    requires ValidRecords(rs) && rs != [] && Holds(mem, at, EncodeAll(rs)) && |EncodeAll(rs)| < TWO32
    ensures next == Next(mem, at) && |EncodeAll(rs)| == Size(rs[0]) + |EncodeAll(rs[1..])| > 0
    ensures next == if Size(rs[0]) < TWO31 then at + Size(rs[0]) else at + Size(rs[0]) - TWO32
    ensures Holds(mem, at + Size(rs[0]), EncodeAll(rs[1..]))
  {
    HoldsParts(mem, at, Encode(rs[0]), EncodeAll(rs[1..]));
    NextRecord(mem, at, rs[0]);
    next := Next(mem, at);
  }

  /** The block's own records are what the walk visits exactly when each is below 2^31 bytes. */
  lemma WalkVisitsRecordsIff(mem: Memory, dataLength: nat, rs: seq<Record>)
    requires ValidRecords(rs) && Holds(mem, 0, EncodeAll(rs)) && |EncodeAll(rs)| == dataLength < TWO32
    ensures Walk(mem, dataLength, 0, Starts(rs, 0)) <==> Small(rs)
  {
    if Small(rs) {
      SmallRecordsVisited(mem, dataLength, 0, rs, Starts(rs, 0));
    } else if Walk(mem, dataLength, 0, Starts(rs, 0)) {
      LargeRecordStrays(mem, dataLength, 0, rs, Starts(rs, 0));
      var a :| a in Starts(rs, 0) && a < 0;
      StartsInside(rs, 0, a);
    }
  }

  /** Every start lies inside the data. */
  lemma {:induction false} StartsInside(rs: seq<Record>, at: int, a: int)
    requires ValidRecords(rs) && a in Starts(rs, at)
    ensures at <= a < at + |EncodeAll(rs)|
    decreases |rs|
  {
    if a != at { StartsInside(rs[1..], at + Size(rs[0]), a); }
  }

  /** From `at` to the end of the data there are exactly these records. */
  ghost predicate AtRecords(mem: Memory, dataLength: nat, at: int, rs: seq<Record>) {
    && ValidRecords(rs) && Small(rs) && Holds(mem, at, EncodeAll(rs))
    && 0 <= at && at + |EncodeAll(rs)| == dataLength < TWO32
  }

  /** The record at `a`, by its own length field, lies inside the data. */
  ghost predicate Inside(mem: Memory, dataLength: nat, a: int) {
    0 <= a && a + HeaderSize(Revision(mem, a)) + ErrorDataLength(mem, a) <= dataLength
  }

  ghost predicate AllInside(mem: Memory, dataLength: nat, visited: seq<int>) {
    forall a :: a in visited ==> Inside(mem, dataLength, a)
  }

  /**
   Conversely, whatever the memory: a walk whose sections all lie inside the data has gone
   through a list of records that fills the data from the first byte to the last.
   */
  lemma {:induction false} WalkInsideIsRecordList(mem: Memory, dataLength: nat, at: int, visited: seq<int>)
    returns (rs: seq<Record>)
    requires dataLength < TWO32 && 0 <= at <= dataLength
    requires Walk(mem, dataLength, at, visited)
    requires AllInside(mem, dataLength, visited)
    ensures AtRecords(mem, dataLength, at, rs) && visited == Starts(rs, at)
    decreases |visited|
  {
    if visited == [] {
      rs := [];
    } else {
      var r, next, later := WalkInsideStep(mem, dataLength, at, visited);
      rs := WalkInsideIsRecordList(mem, dataLength, next, later);
      rs := OneRecordMore(mem, dataLength, at, r, rs, visited, next, later);
    }
  }

  /** The first section of such a walk, and the walk after it. */
  lemma WalkInsideStep(mem: Memory, dataLength: nat, at: nat, visited: seq<int>)
    returns (r: Record, next: nat, later: seq<int>)
    requires dataLength < TWO32 && visited != [] && Walk(mem, dataLength, at, visited)
    requires AllInside(mem, dataLength, visited)
    ensures FirstRecord(mem, at, r, next, visited, later)
    ensures next <= dataLength && Walk(mem, dataLength, next, later) && AllInside(mem, dataLength, later)
  {
    r, later := Parse(mem, at), visited[1..];
    assert forall a :: a in later ==> a in visited;
    assert Inside(mem, dataLength, visited[0]);
    if later != [] { assert Inside(mem, dataLength, later[0]); }
    ParsedInside(mem, dataLength, at);
    next := at + Size(r);
  }

  /** `r` is at `at`, where the walk begins, and the rest of the walk begins behind it. */
  ghost predicate FirstRecord(mem: Memory, at: nat, r: Record, next: nat, visited: seq<int>, later: seq<int>) {
    && ValidRecord(r) && Size(r) < TWO31 && Holds(mem, at, Encode(r)) && next == at + Size(r)
    && visited == [at] + later
  }

  lemma ParsedInside(mem: Memory, dataLength: nat, at: int)
    requires dataLength < TWO32 && Inside(mem, dataLength, at) && Next(mem, at) >= 0
    ensures var r := Parse(mem, at);
            && Holds(mem, at, Encode(r)) && at + Size(r) <= dataLength
            && Size(r) < TWO31 && Next(mem, at) == at + Size(r)
  {
    ParseHolds(mem, at);
    NextRecord(mem, at, Parse(mem, at));
  }

  lemma OneRecordMore(mem: Memory, dataLength: nat, at: nat, r: Record, rs: seq<Record>,
                      visited: seq<int>, next: nat, later: seq<int>) returns (all: seq<Record>)
    requires FirstRecord(mem, at, r, next, visited, later)
    requires AtRecords(mem, dataLength, next, rs) && later == Starts(rs, next)
    ensures AtRecords(mem, dataLength, at, all) && visited == Starts(all, at)
  {
    all := [r] + rs;
    EncodeMore(r, rs);
    assert all[1..] == rs;
    HoldsParts(mem, at, Encode(r), EncodeAll(rs));
  }

  lemma EncodeMore(r: Record, rs: seq<Record>)
    requires ValidRecord(r) && ValidRecords(rs)
    ensures ValidRecords([r] + rs) && EncodeAll([r] + rs) == Encode(r) + EncodeAll(rs)
  {
    var all := [r] + rs;
    assert all[0] == r && all[1..] == rs;
  }

  /** One such record: 2^31 bytes of payload behind an old-style header, alone in its block. */
  lemma LargeRecordExample(length: nat) returns (mem: Memory, r: Record)
    requires length == TWO31
    ensures ValidRecord(r) && |r.payload| == length && Holds(mem, 0, Encode(r))
    ensures Next(mem, 0) == HEADER - TWO31
  {
    r := Record(Zeros(20), 0x100, Zeros(2), Zeros(36), [], Zeros(length));
    var b := Encode(r);
    mem := i => if 0 <= i < |b| then b[i] else 0;
    assert Bytes(mem, 0, |b|) == b;
    NextRecord(mem, 0, r);
  }

  function Zeros(n: nat): (b: seq<Byte>)
    ensures |b| == n
  {
    seq(n, i => 0)
  }

  /** A length field that makes the record size zero leaves the walk standing: it never completes. */
  lemma {:induction false} ZeroSizeNeverEnds(mem: Memory, dataLength: nat, at: int, visited: seq<int>)
    requires at < dataLength
    requires HeaderSize(Revision(mem, at)) + ErrorDataLength(mem, at) == TWO32
    ensures !Walk(mem, dataLength, at, visited)
    decreases |visited|
  {
    SizeSum(HeaderSize(Revision(mem, at)), ErrorDataLength(mem, at));
    if visited != [] { ZeroSizeNeverEnds(mem, dataLength, at, visited[1..]); }
  }

  // ---------------------------------------------------------------- the loop

  /** `apei_estatus_for_each_section` with a body that copies each section's payload. */
  method ForEachSection(mem: Memory, dataLength: nat, ghost rs: seq<Record>)
    returns (visited: seq<int>, payloads: seq<seq<Byte>>)
    requires ValidRecords(rs) && Small(rs) && Holds(mem, 0, EncodeAll(rs))
    requires |EncodeAll(rs)| == dataLength < TWO32
    ensures visited == Starts(rs, 0)
    ensures |payloads| == |rs| && forall i :: 0 <= i < |rs| ==> payloads[i] == rs[i].payload
  {
    visited, payloads := [], [];
    var section: int := 0;
    ghost var left := rs;
    while section < dataLength
      invariant AtRecords(mem, dataLength, section, left)
      invariant visited + Starts(left, section) == Starts(rs, 0)
      invariant |payloads| + |left| == |rs| && left == rs[|payloads|..]
      invariant forall i :: 0 <= i < |payloads| ==> payloads[i] == rs[i].payload
      decreases dataLength - section
    {
      var payload, next := ReadSection(mem, dataLength, section, left);
      payloads := payloads + [payload];
      visited := visited + [section];
      section, left := next, left[1..];
    }
    EmptyEncoding(left);
  }

  lemma EmptyEncoding(rs: seq<Record>)
    requires ValidRecords(rs)
    ensures EncodeAll(rs) == [] <==> rs == []
  {
    if rs != [] { assert |Encode(rs[0])| >= 64; }
  }

  /** What is left past the first record. */
  lemma PastRecord(mem: Memory, dataLength: nat, section: int, rs: seq<Record>)
    requires section < dataLength && AtRecords(mem, dataLength, section, rs)
    ensures rs != [] && Holds(mem, section, Encode(rs[0]))
    ensures AtRecords(mem, dataLength, section + Size(rs[0]), rs[1..])
  {
    EmptyEncoding(rs);
    HoldsParts(mem, section, Encode(rs[0]), EncodeAll(rs[1..]));
  }

  /** The payload of the section at `section`, and where the next one is. */
  method ReadSection(mem: Memory, dataLength: nat, section: int, ghost rs: seq<Record>)
    returns (payload: seq<Byte>, next: int)
    requires section < dataLength && AtRecords(mem, dataLength, section, rs)
    ensures rs != [] && payload == rs[0].payload && section < next
    ensures AtRecords(mem, dataLength, next, rs[1..]) && Starts(rs, section) == [section] + Starts(rs[1..], next)
  {
    PastRecord(mem, dataLength, section, rs);
    ReadsRecord(mem, section, rs[0]);
    NextRecord(mem, section, rs[0]);
    payload, next := Bytes(mem, Payload(mem, section), ErrorDataLength(mem, section)), Next(mem, section);
  }
}
