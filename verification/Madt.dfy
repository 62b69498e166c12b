/** ACPI tables as bytes (ACPI 6.5, sections 5.2.7 and 5.2.12): the search of the RSDT for the MADT and
    the walk of its variable-length records for the I/O APIC. Addresses are physical; the source reaches
    them through the direct map. */
module Madt {
  import opened Words
  import opened ByteMemory

  /** Bytes of a table header, and of the header plus the two fixed MADT fields. */
  const HEADER := 36
  const FIRST_RECORD := 44

  const SIGNATURE: seq<u8> := [65, 80, 73, 67]

  /** A little-endian 32-bit field. */
  function Le32(mem: seq<u8>, a: nat): u64
    requires a + 4 <= |mem|
  {
    var b0: int, b1: int, b2: int, b3: int := mem[a], mem[a + 1], mem[a + 2], mem[a + 3];
    b0 + 0x100 * b1 + 0x1_0000 * b2 + 0x100_0000 * b3
  }

  /** These bytes lie at ptr. */
  ghost predicate LiesAt(mem: seq<u8>, ptr: nat, code: seq<u8>) {
    ptr + |code| <= |mem| && mem[ptr..ptr + |code|] == code
  }

  /** The bytes of a 32-bit value, the least significant first. */
  function Bytes32(x: nat): seq<u8>
    requires x < 0x1_0000_0000
  {
    [x % 256, x / 256 % 256, x / 256 / 256 % 256, x / 256 / 256 / 256]
  }

  /** Reading a field and writing a value are inverse to each other. */
  lemma Le32ReadsBytes(mem: seq<u8>, a: nat, x: nat)
    requires a + 4 <= |mem| && x < 0x1_0000_0000
    ensures Le32(mem, a) < 0x1_0000_0000
    ensures Le32(mem, a) == x <==> LiesAt(mem, a, Bytes32(x))
  {
    var bytes := Bytes32(x);
    assert Le32(bytes, 0) == x;
    if LiesAt(mem, a, bytes) {
      forall i | 0 <= i < 4 ensures mem[a + i] == bytes[i] {
        assert mem[a + i] == mem[a..a + 4][i];
      }
    }
    if Le32(mem, a) == x {
      BytesAreUnique(mem[a], mem[a + 1], mem[a + 2], mem[a + 3]);
      assert mem[a..a + 4] == [mem[a], mem[a + 1], mem[a + 2], mem[a + 3]];
    }
  }

  lemma BytesAreUnique(b0: u8, b1: u8, b2: u8, b3: u8)
    ensures var x := b0 as int + 0x100 * b1 + 0x1_0000 * b2 + 0x100_0000 * b3;
            0 <= x < 0x1_0000_0000 && Bytes32(x) == [b0, b1, b2, b3]
  {
    var z: nat := b2 + 0x100 * b3;
    var y: nat := b1 + 0x100 * z;
    SplitLowByte(b0, y);
    SplitLowByte(b1, z);
    SplitLowByte(b2, b3);
  }

  lemma SplitLowByte(b: u8, n: nat)
    ensures (b + 256 * n) % 256 == b && (b + 256 * n) / 256 == n
  {
  }

  // ---- The walk --------------------------------------------------------------------------------

  /** How the walk ends: at the end of the table, at an I/O APIC record, or never. */
  datatype Ending = Ended | Found(at: nat) | Loops

  ghost function WalkFrom(mem: seq<u8>, ptr: nat, end: nat): (r: Ending)
    requires end + 1 <= |mem|
    ensures r.Found? ==> ptr <= r.at < end
    decreases end - ptr
  {
    if ptr >= end then Ended
    else if mem[ptr] == 1 then Found(ptr)
    else if mem[ptr + 1] == 0 then Loops
    else WalkFrom(mem, ptr + mem[ptr + 1], end)
  }

  /** The pointer values at which the walk looks at a record. */
  ghost function Visits(mem: seq<u8>, ptr: nat, end: nat): seq<nat>
    requires end + 1 <= |mem| && !WalkFrom(mem, ptr, end).Loops?
    decreases end - ptr
  {
    if ptr >= end then [] else if mem[ptr] == 1 then [ptr]
    else [ptr] + Visits(mem, ptr + mem[ptr + 1], end)
  }

  /** The pointer after n passes of the source's loop, which stops at the end or at a type-1 record. */
  ghost predicate Running(mem: seq<u8>, ptr: nat, end: nat)
    requires end + 1 <= |mem|
  {
    ptr < end && mem[ptr] != 1
  }

  ghost function After(mem: seq<u8>, ptr: nat, end: nat, n: nat): nat
    requires end + 1 <= |mem|
    decreases n
  {
    if n == 0 || !Running(mem, ptr, end) then ptr else After(mem, ptr + mem[ptr + 1], end, n - 1)
  }

  /** The n-th record looked at has length 0. */
  ghost predicate StuckAt(mem: seq<u8>, ptr: nat, end: nat, n: nat)
    requires end + 1 <= |mem|
  {
    Running(mem, After(mem, ptr, end, n), end) && mem[After(mem, ptr, end, n) + 1] == 0
  }

  lemma {:induction false} StuckMeansRunning(mem: seq<u8>, ptr: nat, end: nat, k: nat, n: nat)
    requires end + 1 <= |mem| && StuckAt(mem, ptr, end, k)
    ensures Running(mem, After(mem, ptr, end, n), end)
    decreases n
  {
    if n > 0 {
      StuckMeansRunning(mem, ptr + mem[ptr + 1], end, if k > 0 then k - 1 else 0, n - 1);
    }
  }

  lemma {:induction false} OtherwiseStops(mem: seq<u8>, ptr: nat, end: nat) returns (n: nat)
    requires end + 1 <= |mem|
    ensures !Running(mem, After(mem, ptr, end, n), end) || StuckAt(mem, ptr, end, n)
    decreases end - ptr
  {
    n := 0;
    if Running(mem, ptr, end) && mem[ptr + 1] != 0 {
      var m := OtherwiseStops(mem, ptr + mem[ptr + 1], end);
      n := m + 1;
    }
  }

  /** The loop of the source terminates exactly when no record it looks at has length 0. */
  lemma WalkTerminatesIff(mem: seq<u8>, ptr: nat, end: nat)
    requires end + 1 <= |mem|
    ensures (exists n: nat :: !Running(mem, After(mem, ptr, end, n), end)) <==> !exists n: nat :: StuckAt(mem, ptr, end, n)
  {
    if k: nat :| StuckAt(mem, ptr, end, k) {
      forall n: nat ensures Running(mem, After(mem, ptr, end, n), end) {
        StuckMeansRunning(mem, ptr, end, k, n);
      }
    }
    var n := OtherwiseStops(mem, ptr, end);
  }

  /** `WalkFrom` calls exactly these walks endless. */
  lemma {:induction false} LoopsIff(mem: seq<u8>, ptr: nat, end: nat)
    requires end + 1 <= |mem|
    ensures WalkFrom(mem, ptr, end).Loops? <==> exists n: nat :: StuckAt(mem, ptr, end, n)
    decreases end - ptr
  {
    if Running(mem, ptr, end) {
      if mem[ptr + 1] == 0 {
        assert StuckAt(mem, ptr, end, 0);
      } else {
        var next := ptr + mem[ptr + 1];
        LoopsIff(mem, next, end);
        if n: nat :| StuckAt(mem, next, end, n) {
          assert StuckAt(mem, ptr, end, n + 1);
        }
        if n: nat :| StuckAt(mem, ptr, end, n) {
          assert StuckAt(mem, next, end, n - 1);
        }
      }
    }
  }

  /** A MADT of 46 bytes whose only record, of type 0, has length 0. */
  const ENDLESS_MADT: seq<u8> :=
    [65, 80, 73, 67, 46, 0, 0, 0] + seq(36, _ => 0) + [0, 0] + seq(8, _ => 0)

  lemma EndlessMadtExample(n: nat)
    ensures IsMadt(ENDLESS_MADT, 0) && Le32(ENDLESS_MADT, 4) == 46
    ensures Running(ENDLESS_MADT, After(ENDLESS_MADT, FIRST_RECORD, 46, n), 46)
  {
    assert StuckAt(ENDLESS_MADT, FIRST_RECORD, 46, 0);
    StuckMeansRunning(ENDLESS_MADT, FIRST_RECORD, 46, 0, n);
  }

  // ---- Encoded records -------------------------------------------------------------------------

  /** A record: its type, and the bytes after its type and length fields. */
  datatype Record = Record(kind: u8, body: seq<u8>)

  ghost predicate Encodable(records: seq<Record>) {
    forall i :: 0 <= i < |records| ==> |records[i].body| + 2 < 256
  }

  function EncodeOne(r: Record): seq<u8>
    requires |r.body| + 2 < 256
  {
    [r.kind, |r.body| + 2] + r.body
  }

  ghost function Encode(records: seq<Record>): seq<u8>
    requires Encodable(records)
  {
    if records == [] then [] else EncodeOne(records[0]) + Encode(records[1..])
  }

  /** Where the records up to and including the first of type 1 begin. */
  ghost function Boundaries(records: seq<Record>, ptr: nat): seq<nat>
    requires Encodable(records)
  {
    if records == [] then []
    else if records[0].kind == 1 then [ptr]
    else [ptr] + Boundaries(records[1..], ptr + |EncodeOne(records[0])|)
  }

  /** How the walk of encoded records should end: at the first of type 1, if there is one. */
  ghost function ExpectedEnding(records: seq<Record>, ptr: nat): (r: Ending)
    requires Encodable(records)
    ensures r == Ended || r.Found?
    ensures r == Ended <==> forall i :: 0 <= i < |records| ==> records[i].kind != 1
    ensures r.Found? ==> Boundaries(records, ptr) != []
                         && r.at == Boundaries(records, ptr)[|Boundaries(records, ptr)| - 1]
  {
    if records == [] then Ended
    else if records[0].kind == 1 then Found(ptr)
    else
      var rest := ExpectedEnding(records[1..], ptr + |EncodeOne(records[0])|);
      assert forall i :: 0 < i < |records| ==> records[i] == records[1..][i - 1];
      rest
  }

  /** The walk undoes the encoding: it terminates, looks at exactly the record boundaries, in order, and
      ends at the first record of type 1, or at the end of the table if there is none. */
  lemma {:induction false} WalkUndoesEncoding(mem: seq<u8>, ptr: nat, records: seq<Record>)
    requires Encodable(records) && ptr + |Encode(records)| + 1 <= |mem| && LiesAt(mem, ptr, Encode(records))
    ensures WalkFrom(mem, ptr, ptr + |Encode(records)|) == ExpectedEnding(records, ptr)
    ensures Visits(mem, ptr, ptr + |Encode(records)|) == Boundaries(records, ptr)
    decreases |records|
  {
    hide Encode, Boundaries, ExpectedEnding, WalkFrom, Visits, LiesAt;
    if records == [] {
      NothingEncoded(mem, ptr);
    } else {
      var first, rest := EncodeOne(records[0]), records[1..];
      FirstThenRest(records, ptr);
      FirstRecordInMemory(mem, ptr, first, Encode(rest));
      WalkPasses(mem, ptr, ptr + |Encode(records)|, first);
      if records[0].kind != 1 {
        WalkUndoesEncoding(mem, ptr + |first|, rest);
      }
    }
  }

  lemma NothingEncoded(mem: seq<u8>, ptr: nat)
    requires ptr + 1 <= |mem|
    ensures Encode([]) == [] && Boundaries([], ptr) == [] && ExpectedEnding([], ptr) == Ended
    ensures WalkFrom(mem, ptr, ptr) == Ended && Visits(mem, ptr, ptr) == []
  {
  }

  lemma FirstThenRest(records: seq<Record>, ptr: nat)
    requires records != [] && Encodable(records)
    ensures var first, rest := EncodeOne(records[0]), records[1..];
            && Encode(records) == first + Encode(rest)
            && Boundaries(records, ptr) == (if records[0].kind == 1 then [ptr] else [ptr] + Boundaries(rest, ptr + |first|))
            && ExpectedEnding(records, ptr)
               == if records[0].kind == 1 then Found(ptr) else ExpectedEnding(rest, ptr + |first|)
  {
  }

  /** The walk stops at a record of type 1 and goes on behind any other. */
  lemma WalkPasses(mem: seq<u8>, ptr: nat, end: nat, record: seq<u8>)
    requires end + 1 <= |mem| && ptr + |record| <= end && 2 <= |record| == record[1]
    requires mem[ptr] == record[0] && mem[ptr + 1] == record[1]
    ensures WalkFrom(mem, ptr, end) == if record[0] == 1 then Found(ptr) else WalkFrom(mem, ptr + |record|, end)
    ensures !WalkFrom(mem, ptr, end).Loops? ==>
              Visits(mem, ptr, end) == if record[0] == 1 then [ptr] else [ptr] + Visits(mem, ptr + |record|, end)
  {
  }

  /** The walk found a record, and the bytes of its address field are bytes 2 to 5 of `body`. */
  ghost predicate FindsAddress(mem: seq<u8>, r: Ending, body: seq<u8>)
    requires |body| >= 6
  {
    r.Found? && LiesAt(mem, r.at + 4, body[2..6])
  }

  /** The field the walk then reads is the address stored in that record: bytes 2 to 5 of its body. */
  lemma {:induction false} FoundRecordHoldsAddress(mem: seq<u8>, ptr: nat, records: seq<Record>, k: nat)
    requires Encodable(records) && ptr + |Encode(records)| + 1 <= |mem| && LiesAt(mem, ptr, Encode(records))
    requires k < |records| && records[k].kind == 1 && |records[k].body| >= 6
    requires forall i :: 0 <= i < k ==> records[i].kind != 1
    ensures FindsAddress(mem, WalkFrom(mem, ptr, ptr + |Encode(records)|), records[k].body)
    decreases k
  {
    hide FindsAddress, Encode, WalkFrom, LiesAt, Boundaries, ExpectedEnding, Visits;
    var first, rest := EncodeOne(records[0]), records[1..];
    FirstThenRest(records, ptr);
    assert |first| == |records[0].body| + 2 == first[1] && first[0] == records[0].kind;
    hide EncodeOne;
    FirstRecordInMemory(mem, ptr, first, Encode(rest));
    WalkPasses(mem, ptr, ptr + |Encode(records)|, first);
    if k == 0 {
      FieldOfFirstRecord(mem, ptr, records[0], Encode(rest));
    } else {
      assert rest[k - 1] == records[k];
      FoundRecordHoldsAddress(mem, ptr + |first|, rest, k - 1);
    }
  }

  lemma FieldOfFirstRecord(mem: seq<u8>, ptr: nat, r: Record, rest: seq<u8>)
    requires 6 <= |r.body| < 254 && LiesAt(mem, ptr, EncodeOne(r) + rest)
    ensures FindsAddress(mem, Found(ptr), r.body)
  {
    var code := EncodeOne(r) + rest;
    assert mem[ptr + 4..ptr + 8] == mem[ptr..ptr + |code|][4..8] == code[4..8] == r.body[2..6];
  }

  lemma FirstRecordInMemory(mem: seq<u8>, ptr: nat, first: seq<u8>, rest: seq<u8>)
    requires |first| >= 2 && LiesAt(mem, ptr, first + rest)
    ensures ptr + |first| + |rest| <= |mem| && mem[ptr] == first[0] && mem[ptr + 1] == first[1]
    ensures LiesAt(mem, ptr + |first|, rest)
  {
    var code := first + rest;
    assert mem[ptr] == mem[ptr..ptr + |code|][0] == code[0];
    assert mem[ptr + 1] == mem[ptr..ptr + |code|][1] == code[1];
    assert mem[ptr + |first|..ptr + |code|] == code[|first|..];
  }

  // ---- The globals -----------------------------------------------------------------------------

  class Acpi {
    var theMadt: Lookup
    var ioapicBase: u64

    /** Finds the MADT and, if there is one, walks it for the address of the first I/O APIC. */
    method MadtParsing(mem: seq<u8>, rsdt: nat, hhdm: u64)
      requires Readable(mem, rsdt)
      requires FirstMadt(mem, Targets(mem, rsdt), 0).Table? ==> Walkable(mem, FirstMadt(mem, Targets(mem, rsdt), 0).at)
      modifies this
      ensures theMadt == FirstMadt(mem, Targets(mem, rsdt), 0)
      ensures theMadt.NoTable? ==> ioapicBase == old(ioapicBase)
      ensures theMadt.Table? ==> ioapicBase == BaseAfter(mem, theMadt.at, hhdm, old(ioapicBase))
      ensures forall pointers, tail :: HoldsPointers(mem, rsdt, pointers, tail) ==> FirstApicTable(mem, pointers, theMadt)
      ensures forall a: nat :: theMadt.Table? && StoresAddress(mem, theMadt.at, a) ==>
                ioapicBase == (a + hhdm) % 0x1_0000_0000_0000_0000
    {
      hide Le32, StoresAddress, HoldsPointers, FirstApicTable, FirstMadt, BaseAfter, Readable, Targets;
      theMadt := FindAPIC(mem, rsdt);
      if theMadt.NoTable? {
        return;
      }
      WalkRecords(mem, hhdm);
      forall a: nat | StoresAddress(mem, theMadt.at, a) ensures ioapicBase == (a + hhdm) % 0x1_0000_0000_0000_0000 {
        EncodedBase(mem, theMadt.at, hhdm, old(ioapicBase), a);
      }
    }

    method WalkRecords(mem: seq<u8>, hhdm: u64)
      requires theMadt.Table? && Walkable(mem, theMadt.at)
      modifies this`ioapicBase
      ensures ioapicBase == BaseAfter(mem, theMadt.at, hhdm, old(ioapicBase))
    {
      var madt := theMadt.at;
      var ptr, end := madt + FIRST_RECORD, madt + Le32(mem, madt + 4);
      while ptr < end
        invariant ioapicBase == old(ioapicBase)
        invariant WalkFrom(mem, ptr, end) == WalkFrom(mem, madt + FIRST_RECORD, end)
        decreases end - ptr
      {
        var kind, length := mem[ptr], mem[ptr + 1];
        if kind == 1 {
          ioapicBase := (Le32(mem, ptr + 4) + hhdm) % TWO_64;
          return;
        }
        ptr := ptr + length;
      }
    }
  }

  /** The MADT, with the bytes a record's fields may reach past its end, can be read, and its walk ends. */
  ghost predicate Walkable(mem: seq<u8>, madt: nat) {
    && madt + 8 <= |mem| && madt + Le32(mem, madt + 4) + 8 <= |mem|
    && !WalkFrom(mem, madt + FIRST_RECORD, madt + Le32(mem, madt + 4)).Loops?
  }

  /** The I/O APIC's base: the address field of the record found, through the direct map, or as before. */
  ghost function BaseAfter(mem: seq<u8>, madt: nat, hhdm: u64, before: u64): u64
    requires Walkable(mem, madt)
  {
    match WalkFrom(mem, madt + FIRST_RECORD, madt + Le32(mem, madt + 4))
    case Found(at) => (Le32(mem, at + 4) + hhdm) % TWO_64
    case _ => before
  }

  /** A MADT at this address holds these records: they lie behind its 44 bytes of header and fixed part, its length
      field counts them, and enough memory follows to read a field that the last record may lack. */
  ghost predicate HoldsRecords(mem: seq<u8>, madt: nat, records: seq<Record>) {
    && Encodable(records)
    && 44 + |Encode(records)| < 0x1_0000_0000 && madt + 44 + |Encode(records)| + 8 <= |mem|
    && LiesAt(mem, madt + 4, Bytes32(44 + |Encode(records)|))
    && LiesAt(mem, madt + 44, Encode(records))
  }

  /** Record k is the first of type 1, and holds address a in bytes 4 to 7. */
  ghost predicate FirstIoApic(records: seq<Record>, k: nat, a: nat) {
    && k < |records| && records[k].kind == 1 && (forall i :: 0 <= i < k ==> records[i].kind != 1)
    && a < 0x1_0000_0000 && LiesAt(records[k].body, 2, Bytes32(a))
  }

  /** A MADT at this address holds records, and the first of type 1 among them holds address a. */
  ghost predicate StoresAddress(mem: seq<u8>, madt: nat, a: nat) {
    exists records: seq<Record>, k: nat :: HoldsRecords(mem, madt, records) && FirstIoApic(records, k, a)
  }

  /** What the walk makes of such a table: the address stored, plus the offset of the direct map. */
  lemma EncodedBase(mem: seq<u8>, madt: nat, hhdm: u64, before: u64, a: nat)
    requires StoresAddress(mem, madt, a)
    ensures Walkable(mem, madt)
    ensures BaseAfter(mem, madt, hhdm, before) == (a + hhdm) % 0x1_0000_0000_0000_0000
  {
    hide Encode, Le32, WalkFrom, ExpectedEnding, Encodable, HoldsRecords, Bytes32, LiesAt;
    var records: seq<Record>, k: nat :| HoldsRecords(mem, madt, records) && FirstIoApic(records, k, a);
    HeldRecords(mem, madt, records);
    var ptr := madt + FIRST_RECORD;
    BodyHolds(records[k].body, a);
    FoundRecordHoldsAddress(mem, ptr, records, k);
    var at := WalkFrom(mem, ptr, ptr + |Encode(records)|).at;
    Le32ReadsBytes(mem, at + 4, a);
  }

  lemma BodyHolds(body: seq<u8>, a: nat)
    requires a < 0x1_0000_0000 && LiesAt(body, 2, Bytes32(a))
    ensures |body| >= 6 && body[2..6] == Bytes32(a)
  {
  }

  /** Without such a record the base stays as it is. */
  lemma NoEncodedBase(mem: seq<u8>, madt: nat, records: seq<Record>, hhdm: u64, before: u64)
    requires HoldsRecords(mem, madt, records) && forall k :: 0 <= k < |records| ==> records[k].kind != 1
    ensures Walkable(mem, madt) && BaseAfter(mem, madt, hhdm, before) == before
  {
    HeldRecords(mem, madt, records);
    hide Encode, Le32, WalkFrom, Encodable, HoldsRecords, Bytes32, LiesAt;
  }

  lemma HeldRecords(mem: seq<u8>, madt: nat, records: seq<Record>)
    requires HoldsRecords(mem, madt, records)
    ensures Encodable(records) && madt + 8 <= |mem| && madt + Le32(mem, madt + 4) + 8 <= |mem|
    ensures FIRST_RECORD + |Encode(records)| == Le32(mem, madt + 4)
    ensures var ptr := madt + FIRST_RECORD;
            && LiesAt(mem, ptr, Encode(records))
            && WalkFrom(mem, ptr, ptr + |Encode(records)|) == ExpectedEnding(records, ptr)
  {
    hide Encode, Le32, WalkFrom, ExpectedEnding, Encodable, Bytes32, LiesAt;
    Le32ReadsBytes(mem, madt + 4, 44 + |Encode(records)|);
    WalkUndoesEncoding(mem, madt + FIRST_RECORD, records);
  }

  // ---- The search ------------------------------------------------------------------------------

  /** How many pointers follow the header of the RSDT. The subtraction is unsigned. */
  function PointerCount(mem: seq<u8>, rsdt: nat): nat
    requires rsdt + HEADER <= |mem|
  {
    (Le32(mem, rsdt + 4) - HEADER) % TWO_64 / 4
  }

  /** The pointers themselves. */
  ghost function Targets(mem: seq<u8>, rsdt: nat): (r: seq<u64>)
    requires rsdt + HEADER <= |mem| && rsdt + HEADER + 4 * PointerCount(mem, rsdt) <= |mem|
    ensures |r| == PointerCount(mem, rsdt)
  {
    seq(PointerCount(mem, rsdt), i requires 0 <= i < PointerCount(mem, rsdt) => Le32(mem, rsdt + HEADER + 4 * i))
  }

  /** The table and the headers it points at can be read. */
  ghost predicate Readable(mem: seq<u8>, rsdt: nat) {
    && rsdt + HEADER <= |mem|
    && rsdt + HEADER + 4 * PointerCount(mem, rsdt) <= |mem|
    && forall h :: h in Targets(mem, rsdt) ==> h + HEADER <= |mem|
  }

  datatype Lookup = NoTable | Table(at: nat)

  /** The table at h has the MADT's signature, "APIC". */
  predicate IsMadt(mem: seq<u8>, h: nat) {
    h + 4 <= |mem| && mem[h..h + 4] == [65, 80, 73, 67]
  }

  /** The first of the tables, from number i on, with the MADT's signature. */
  ghost function FirstMadt(mem: seq<u8>, tables: seq<u64>, i: nat): (r: Lookup)
    requires i <= |tables|
    ensures r == NoTable ==> forall k :: i <= k < |tables| ==> !IsMadt(mem, tables[k])
    ensures r.Table? ==> exists k :: (i <= k < |tables| && IsMadt(mem, tables[k]) && r.at == tables[k]
                                      && forall j :: i <= j < k ==> !IsMadt(mem, tables[j]))
    decreases |tables| - i
  {
    if i == |tables| then NoTable
    else if IsMadt(mem, tables[i]) then Table(tables[i])
    else FirstMadt(mem, tables, i + 1)
  }

  /** An RSDT at this address holds these pointers: its length field counts its 36-byte header, four bytes for each
      and perhaps an incomplete one, and they lie behind the header. */
  ghost predicate HoldsPointers(mem: seq<u8>, rsdt: nat, pointers: seq<u64>, tail: nat) {
    && tail < 4 && 36 + 4 * |pointers| + tail < 0x1_0000_0000
    && rsdt + 36 + 4 * |pointers| <= |mem|
    && LiesAt(mem, rsdt + 4, Bytes32(36 + 4 * |pointers| + tail))
    && forall i :: 0 <= i < |pointers| ==> HoldsPointer(mem, rsdt + 36 + 4 * i, pointers[i])
  }

  ghost predicate HoldsPointer(mem: seq<u8>, at: nat, h: u64) {
    h < 0x1_0000_0000 && LiesAt(mem, at, Bytes32(h))
  }

  /** The search reads exactly these. */
  lemma TargetsAreThePointers(mem: seq<u8>, rsdt: nat, pointers: seq<u64>, tail: nat)
    requires HoldsPointers(mem, rsdt, pointers, tail)
    ensures PointerCount(mem, rsdt) == |pointers| && Targets(mem, rsdt) == pointers
  {
    hide Le32, Bytes32, LiesAt;
    Le32ReadsBytes(mem, rsdt + 4, 36 + 4 * |pointers| + tail);
    forall i | 0 <= i < |pointers| ensures Le32(mem, rsdt + HEADER + 4 * i) == pointers[i] {
      Le32ReadsBytes(mem, rsdt + 36 + 4 * i, pointers[i]);
    }
  }

  /** A length below that of the header makes the count wrap: some 2^62 pointers are then searched. */
  lemma PointerCountWrapsIff(mem: seq<u8>, rsdt: nat)
    requires rsdt + HEADER <= |mem|
    ensures PointerCount(mem, rsdt) >= 0x3FFF_FFFF_FFFF_FFF7 <==> Le32(mem, rsdt + 4) < 36
    ensures Le32(mem, rsdt + 4) >= 36 ==> PointerCount(mem, rsdt) == (Le32(mem, rsdt + 4) - 36) / 4 < 0x4000_0000
  {
    hide Le32, Bytes32, LiesAt;
    Le32ReadsBytes(mem, rsdt + 4, 0);
  }

  /** r is the first of these tables with the signature, if there is one. */
  ghost predicate FirstApicTable(mem: seq<u8>, pointers: seq<u64>, r: Lookup) {
    match r
    case NoTable => forall k :: 0 <= k < |pointers| ==> !IsMadt(mem, pointers[k])
    case Table(h) => exists k :: (0 <= k < |pointers| && IsMadt(mem, pointers[k]) && h == pointers[k]
                                  && forall j :: 0 <= j < k ==> !IsMadt(mem, pointers[j]))
  }

  lemma FirstIsFirst(mem: seq<u8>, pointers: seq<u64>)
    ensures FirstApicTable(mem, pointers, FirstMadt(mem, pointers, 0))
  {
    hide IsMadt;
  }

  method FindAPIC(mem: seq<u8>, rsdt: nat) returns (r: Lookup)
    requires Readable(mem, rsdt)
    ensures r == FirstMadt(mem, Targets(mem, rsdt), 0)
    ensures forall pointers, tail :: HoldsPointers(mem, rsdt, pointers, tail) ==> FirstApicTable(mem, pointers, r)
  {
    hide Le32, HoldsPointers, PointerCount, Bytes32, LiesAt, FirstApicTable;
    ghost var tables := Targets(mem, rsdt);
    forall pointers, tail | HoldsPointers(mem, rsdt, pointers, tail)
      ensures FirstApicTable(mem, pointers, FirstMadt(mem, tables, 0))
    {
      TargetsAreThePointers(mem, rsdt, pointers, tail);
      FirstIsFirst(mem, pointers);
    }
    for i := 0 to PointerCount(mem, rsdt)
      invariant FirstMadt(mem, tables, 0) == FirstMadt(mem, tables, i)
    {
      var h := Le32(mem, rsdt + HEADER + 4 * i);
      assert h == tables[i] && h in tables;
      var order := Compare(mem[h..h + 4], SIGNATURE);
      if order == 0 {
        return Table(h);
      }
    }
    r := NoTable;
  }
}
