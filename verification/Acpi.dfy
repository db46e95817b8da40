/** The walk over the records of the MADT. */
module Acpi {
  import opened Bytes

  const MADT_HEADER := 44   // acpi_sdt_header, local APIC address, flags
  const IO_APIC := 1

  /** A record: its type byte, its length byte, and what the length counts besides those two. */
  datatype Record = Record(kind: byte, payload: seq<byte>)

  function Length(r: Record): nat {
    2 + |r.payload|
  }

  ghost predicate Encodable(rs: seq<Record>) {
    forall r :: r in rs ==> Length(r) < 256
  }

  function Encode(rs: seq<Record>): seq<byte>
    requires forall r :: r in rs ==> Length(r) < 256
  {
    if rs == [] then [] else [rs[0].kind, Length(rs[0])] + rs[0].payload + Encode(rs[1..])
  }

  /** Stuck: a record of length zero is never left. Torn: a record header runs past the memory.
      Wrapped: a record runs past the last address, and the 32-bit walker starts over at the bottom. */
  datatype Entry = FoundAt(a: nat) | Absent | Stuck | Torn | Wrapped

  /** What the walk from a comes to. */
  function Walk(m: seq<byte>, a: nat, limit: nat): Entry
    decreases limit - a
  {
    if a >= limit then Absent
    else if a + 2 > |m| then Torn
    else if m[a] == IO_APIC then FoundAt(a)
    else if m[a + 1] == 0 then Stuck
    else if a + m[a + 1] >= WORD then Wrapped
    else Walk(m, a + m[a + 1], limit)
  }

  function TableLength(m: seq<byte>, table: nat): nat
    requires table + MADT_HEADER <= |m|
  {
    Le32(m, table + 4)
  }

  /** getEntry: only type 1 is supported, anything else is null. */
  method GetEntry(mem: array<byte>, table: nat, kind: int) returns (r: Entry)
    requires table + MADT_HEADER <= mem.Length <= WORD
    ensures r == if kind != IO_APIC then Absent
      else Walk(mem[..], table + MADT_HEADER, (table + TableLength(mem[..], table)) % WORD)
  {
    if kind != IO_APIC {
      return Absent;
    }
    var walker := table + MADT_HEADER;
    var limit := (table + TableLength(mem[..], table)) % WORD;
    while walker < limit
      invariant Walk(mem[..], table + MADT_HEADER, limit) == Walk(mem[..], walker, limit)
      decreases limit - walker
    {
      if walker + 2 > mem.Length { return Torn; }
      if mem[walker] == IO_APIC { return FoundAt(walker); }
      if mem[walker + 1] == 0 { return Stuck; }
      if walker + mem[walker + 1] >= WORD { return Wrapped; }
      walker := walker + mem[walker + 1];
    }
    return Absent;
  }

  /** Where the first record of type 1 starts, among records laid out from a on. */
  function FirstIoApic(rs: seq<Record>, a: nat): Entry {
    if rs == [] then Absent
    else if rs[0].kind == 1 then FoundAt(a)
    else FirstIoApic(rs[1..], a + Length(rs[0]))
  }

  /** On a well-formed table the walk stays on record boundaries and finds the first such record. */
  lemma {:induction false} WalkFollowsRecords(m: seq<byte>, a: nat, rs: seq<Record>)
    requires Encodable(rs) && a + |Encode(rs)| <= |m| && a + |Encode(rs)| < WORD && m[a..a + |Encode(rs)|] == Encode(rs)
    ensures Walk(m, a, a + |Encode(rs)|) == FirstIoApic(rs, a)
    decreases rs
  {
    if rs != [] {
      var e, len := Encode(rs), Length(rs[0]);
      var limit := a + |e|;
      var tail := Encode(rs[1..]);
      assert m[a] == m[a..limit][0] == e[0] && m[a + 1] == m[a..limit][1] == e[1];
      assert e[len..] == tail;
      assert m[a + len..limit] == m[a..limit][len..];
      WalkFollowsRecords(m, a + len, rs[1..]);
    }
  }

  /** A table as it is laid out: signature, length of it all, the rest of the 36-byte header, the local
      APIC's address, flags, and the records. */
  function EncodeTable(signature: seq<byte>, header: seq<byte>, apic: nat, flags: nat, rs: seq<Record>): (e: seq<byte>)
    requires |signature| == 4 && |header| == 28 && forall r :: r in rs ==> Length(r) < 256
    ensures |e| == 44 + |Encode(rs)|
  {
    signature + Enc32(44 + |Encode(rs)|) + header + Enc32(apic) + Enc32(flags) + Encode(rs)
  }

  ghost predicate TableAt(m: seq<byte>, table: nat, e: seq<byte>) {
    table + |e| <= |m| && table + |e| < 0x1_0000_0000 && m[table..table + |e|] == e
  }

  lemma TableReads(m: seq<byte>, table: nat, signature: seq<byte>, header: seq<byte>, apic: nat, flags: nat,
                   rs: seq<Record>)
    requires |signature| == 4 && |header| == 28 && Encodable(rs)
    requires TableAt(m, table, EncodeTable(signature, header, apic, flags, rs))
    ensures var n := |Encode(rs)|;
      && TableLength(m, table) == 44 + n && m[table + 44..table + 44 + n] == Encode(rs)
  {
    var e, n := EncodeTable(signature, header, apic, flags, rs), |Encode(rs)|;
    TableParts(signature, header, apic, flags, rs);
    SliceOfSlice(m, table, e, 4, 4);
    SliceOfSlice(m, table, e, 44, n);
    Stored32(m, table + 4, 44 + n);
  }

  lemma TableParts(signature: seq<byte>, header: seq<byte>, apic: nat, flags: nat, rs: seq<Record>)
    requires |signature| == 4 && |header| == 28 && Encodable(rs)
    ensures var e, n := EncodeTable(signature, header, apic, flags, rs), |Encode(rs)|;
      e[4..8] == Enc32(44 + n) && e[44..44 + n] == Encode(rs)
  {
  }

  lemma TableWalk(m: seq<byte>, table: nat, signature: seq<byte>, header: seq<byte>, apic: nat, flags: nat,
                  rs: seq<Record>)
    requires |signature| == 4 && |header| == 28 && Encodable(rs)
    requires TableAt(m, table, EncodeTable(signature, header, apic, flags, rs))
    ensures Walk(m, table + MADT_HEADER, (table + TableLength(m, table)) % WORD) == FirstIoApic(rs, table + 44)
  {
    TableReads(m, table, signature, header, apic, flags, rs);
    Unwrapped(table + 44 + |Encode(rs)|);
    WalkFollowsRecords(m, table + 44, rs);
  }

  /** On such a table, wherever it is: the first record of type 1, or null. */
  method GetFromTable(mem: array<byte>, table: nat, kind: int, ghost signature: seq<byte>, ghost header: seq<byte>,
                      ghost apic: nat, ghost flags: nat, ghost rs: seq<Record>) returns (r: Entry)
    requires mem.Length <= 0x1_0000_0000 && |signature| == 4 && |header| == 28 && Encodable(rs)
    requires TableAt(mem[..], table, EncodeTable(signature, header, apic, flags, rs))
    ensures r == if kind == 1 then FirstIoApic(rs, table + 44) else Absent
  {
    TableWalk(mem[..], table, signature, header, apic, flags, rs);
    r := GetEntry(mem, table, kind);
  }

  /** The walk gets from a to b over whole records, none of them the one looked for. */
  ghost predicate Boundary(m: seq<byte>, a: nat, b: nat)
    decreases b - a
  {
    a == b || (a < b && a + 2 <= |m| && m[a] != IO_APIC && m[a + 1] != 0 && Boundary(m, a + m[a + 1], b))
  }

  /** Where the walk from a comes to an end, and what it says there. */
  ghost predicate EndsAt(m: seq<byte>, a: nat, limit: nat, b: nat, r: Entry) {
    && Boundary(m, a, b)
    && match r
       case FoundAt(f) => f == b < limit && b + 2 <= |m| && m[b] == IO_APIC
       case Absent => b >= limit
       case Stuck => b < limit && b + 2 <= |m| && m[b] != IO_APIC && m[b + 1] == 0
       case Torn => b < limit && b + 2 > |m|
       case Wrapped => b < limit && b + 2 <= |m| && m[b] != IO_APIC && b + m[b + 1] >= WORD
  }

  /** On any memory: the walk stays on record boundaries, and its answer is what it found where it ended. */
  lemma {:induction false} FoundOnBoundary(m: seq<byte>, a: nat, limit: nat) returns (b: nat)
    ensures EndsAt(m, a, limit, b, Walk(m, a, limit))
    decreases limit - a
  {
    b := a;
    if a < limit && a + 2 <= |m| && m[a] != IO_APIC && m[a + 1] != 0 && a + m[a + 1] < WORD {
      b := FoundOnBoundary(m, a + m[a + 1], limit);
    }
  }
}
