/**
  The walk over the records of the multiple APIC description table (section 5.2.12 of the ACPI
  5.0 specification). A record starts with its type and its length. Types 0 to 7 are skipped by
  their length, 8 to 10 end the walk, and any other byte is skipped alone. On a type 7 record
  the walk also stores an address into the table, at offset 16 of the record.
  */
module Madt {
  type byte = x: nat | x < 256

  const NO_OVERRIDE := 0xFFFF_FFFF
  const IRQS := 16
  const SOURCES := 256

  /**
    The words from the start of the override array on, as many as a source byte can index: the
    array has sixteen, the others belong to whatever lies behind it. Nothing the walk itself
    uses is taken to lie there.
    */
  type Redirects = r: seq<nat> | |r| == SOURCES witness seq(SOURCES, _ => NO_OVERRIDE)

  /** What the walk leaves: the processor count, the overrides, and where and what it visited. */
  datatype Parsed = Parsed(cpus: nat, redirects: Redirects, visited: seq<(nat, byte)>, memory: seq<byte>)

  /** A little-endian 32-bit word. */
  function Word(m: seq<byte>, at: nat): nat
    requires at + 4 <= |m|
  {
    var b0: int, b1: int, b2: int, b3: int := m[at], m[at + 1], m[at + 2], m[at + 3];
    b0 + 0x100 * b1 + 0x1_0000 * b2 + 0x100_0000 * b3
  }

  /** The four bytes of the address of offset 16 of a record, stored there. */
  function StoreAddress(m: seq<byte>, base: nat, head: nat): (t: seq<byte>)
    requires head + 20 <= |m|
    ensures |t| == |m|
  {
    var address := base + head + 16;
    m[head + 16 := address % 256]
     [head + 17 := address / 0x100 % 256]
     [head + 18 := address / 0x1_0000 % 256]
     [head + 19 := address / 0x100_0000 % 256]
  }

  /** An interrupt source override; sources from 16 on are written behind the array. */
  function Override(r: Redirects, source: byte, interrupt: nat): Redirects {
    r[source := interrupt]
  }

  /** One record is read, whatever its length says; `p.memory` is readable for 20 bytes from `head`. */
  function Visit(p: Parsed, base: nat, head: nat): (q: Parsed)
    requires head + 20 <= |p.memory|
    ensures |q.memory| == |p.memory|
  {
    var t := p.memory[head];
    Parsed(
      if t == 0 then p.cpus + 1 else p.cpus,
      if t == 2 then Override(p.redirects, p.memory[head + 3], Word(p.memory, head + 4)) else p.redirects,
      p.visited + [(head, t)],
      if t == 7 then StoreAddress(p.memory, base, head) else p.memory)
  }

  /** The rest of the walk, from `head` on. */
  function Walk(p: Parsed, base: nat, head: nat, end: nat): (q: Parsed)
    requires end + 20 <= |p.memory|
    ensures |q.memory| == |p.memory|
    decreases end - head
  {
    if head >= end then p
    else
      var t, length := p.memory[head], p.memory[head + 1];
      if t <= 7 then
        if length == 0 then p else Walk(Visit(p, base, head), base, head + length, end)
      else if t <= 10 then p
      else Walk(p, base, head + 1, end)
  }

  class Acpi {
    var cpuCount: nat
    const irqRedir: array<nat>

    ghost predicate Valid()
      reads this
    {
      irqRedir.Length == SOURCES
    }

    constructor (behind: seq<nat>)
      requires IRQS + |behind| == SOURCES
      ensures Valid() && fresh(irqRedir) && irqRedir[..] == seq(IRQS, _ => NO_OVERRIDE) + behind
    {
      cpuCount := 0;
      var words := seq(IRQS, _ => NO_OVERRIDE) + behind;
      irqRedir := new nat[SOURCES](i requires 0 <= i < SOURCES => words[i]);
    }

    /** `acpi_parse_madt`, on memory that holds the records up to `end` and can be read beyond. */
    method ParseMadt(memory: array<byte>, base: nat, start: nat, end: nat) returns (ghost visited: seq<(nat, byte)>)
      requires Valid() && start <= end && end + 20 <= memory.Length
      modifies this`cpuCount, irqRedir, memory
      ensures Valid()
      ensures var q := Walk(Parsed(0, old(irqRedir[..]), [], old(memory[..])), base, start, end);
              && cpuCount == q.cpus && irqRedir[..] == q.redirects
              && visited == q.visited && memory[..] == q.memory
    {
      hide Visit;
      var head, complete := start, false;
      cpuCount := 0;
      visited := [];
      ghost var result := Walk(Parsed(0, irqRedir[..], [], memory[..]), base, start, end);
      while head < end && !complete
        invariant Valid()
        invariant if complete then Parsed(cpuCount, irqRedir[..], visited, memory[..]) == result
                  else Walk(Parsed(cpuCount, irqRedir[..], visited, memory[..]), base, head, end) == result
        decreases !complete, end - head
      {
        var t, length := memory[head], memory[head + 1];
        if t <= 7 {
          if length == 0 {
            complete := true;
          } else {
            visited := Read(memory, base, head, visited);
            head := head + length;
          }
        } else if t <= 10 {
          complete := true;
        } else {
          head := head + 1;
        }
      }
    }

    /** The work done for one record of type 0 to 7. */
    method Read(memory: array<byte>, base: nat, head: nat, ghost before: seq<(nat, byte)>)
        returns (ghost visited: seq<(nat, byte)>)
      requires Valid() && head + 20 <= memory.Length
      modifies this`cpuCount, irqRedir, memory
      ensures Parsed(cpuCount, irqRedir[..], visited, memory[..])
           == Visit(Parsed(old(cpuCount), old(irqRedir[..]), before, old(memory[..])), base, head)
    {
      var t := memory[head];
      visited := before + [(head, t)];
      if t == 0 {
        cpuCount := cpuCount + 1;
      } else if t == 2 {
        irqRedir[memory[head + 3]] := Word(memory[..], head + 4);
      } else if t == 7 {
        var address := base + head + 16;
        memory[head + 16] := address % 256;
        memory[head + 17] := address / 0x100 % 256;
        memory[head + 18] := address / 0x1_0000 % 256;
        memory[head + 19] := address / 0x100_0000 % 256;
      }
    }

    /** `acpi_irq_remap` */
    method Remap(irq: nat) returns (line: nat)
      requires Valid() && irq < IRQS
      ensures line == Remapped(irqRedir[..], irq)
    {
      line := if irqRedir[irq] != NO_OVERRIDE then irqRedir[irq] else irq;
    }
  }

  function Remapped(r: Redirects, irq: nat): nat
    requires irq < IRQS
  {
    if r[irq] != NO_OVERRIDE then r[irq] else irq
  }

  // ---------------------------------------------------------------- well-formed tables

  /** A record by its type and the bytes behind its length. */
  datatype Record = Record(kind: byte, body: seq<byte>)

  function Length(r: Record): nat {
    2 + |r.body|
  }

  /** The shortest that the specification allows each type to be. */
  function MinLength(kind: byte): nat {
    match kind
    case 0 => 8
    case 1 => 12
    case 2 => 10
    case 3 => 8
    case 4 => 6
    case 5 => 12
    case 6 => 16
    case _ => 17
  }

  predicate WellFormed(r: Record) {
    r.kind <= 7 && MinLength(r.kind) <= Length(r) < 256
  }

  function Encode(r: Record): seq<byte>
    requires WellFormed(r)
  {
    [r.kind, Length(r)] + r.body
  }

  function EncodeAll(records: seq<Record>): seq<byte>
    requires forall r :: r in records ==> WellFormed(r)
  {
    if records == [] then [] else Encode(records[0]) + EncodeAll(records[1..])
  }

  /** A type 7 record has the 20 bytes that the stored address reaches to. */
  predicate Roomy(r: Record) {
    r.kind == 7 ==> Length(r) >= 20
  }

  function Processors(records: seq<Record>): nat {
    if records == [] then 0 else (if records[0].kind == 0 then 1 else 0) + Processors(records[1..])
  }

  function SourceOf(r: Record): byte
    requires WellFormed(r) && r.kind == 2
  {
    r.body[1]
  }

  function InterruptOf(r: Record): nat
    requires WellFormed(r) && r.kind == 2
  {
    Word(r.body, 2)
  }

  /** The interrupt of the last override of a source, or what was there before. */
  function LastOverride(records: seq<Record>, source: nat, before: nat): nat
    requires forall r :: r in records ==> WellFormed(r)
  {
    if records == [] then before
    else
      var r := records[|records| - 1];
      if r.kind == 2 && SourceOf(r) == source then InterruptOf(r)
      else LastOverride(records[..|records| - 1], source, before)
  }

  /** Every record where it starts, in order. */
  function Visits(records: seq<Record>, start: nat): seq<(nat, byte)> {
    if records == [] then [] else [(start, records[0].kind)] + Visits(records[1..], start + Length(records[0]))
  }

  function Sources(records: seq<Record>, r: Redirects): Redirects
    requires forall x :: x in records ==> WellFormed(x)
  {
    if records == [] then r
    else
      Sources(records[1..],
              if records[0].kind == 2 then Override(r, SourceOf(records[0]), InterruptOf(records[0])) else r)
  }

  /** Applying the overrides from the front leaves the last one of each source. */
  lemma {:induction false} SourcesAreLast(records: seq<Record>, r: Redirects, source: nat)
    requires source < SOURCES && forall x :: x in records ==> WellFormed(x)
    ensures Sources(records, r)[source] == LastOverride(records, source, r[source])
  {
    if records != [] {
      var r' := if records[0].kind == 2 then Override(r, SourceOf(records[0]), InterruptOf(records[0])) else r;
      SourcesAreLast(records[1..], r', source);
      LastOverrideFirst(records, source, r[source]);
    }
  }

  lemma {:induction false} LastOverrideFirst(records: seq<Record>, source: nat, before: nat)
    requires records != [] && forall x :: x in records ==> WellFormed(x)
    ensures LastOverride(records, source, before)
         == LastOverride(records[1..], source,
              if records[0].kind == 2 && SourceOf(records[0]) == source then InterruptOf(records[0]) else before)
  {
    if |records| > 1 {
      var front := records[..|records| - 1];
      LastOverrideFirst(front, source, before);
      assert front[1..] == records[1..][..|records| - 2];
    }
  }

  /** The bytes of the first record of a table, and those behind it. */
  lemma RecordAt(m: seq<byte>, head: nat, end: nat, r: Record, rest: seq<byte>)
    requires head <= end <= |m| && WellFormed(r) && m[head..end] == Encode(r) + rest
    ensures head + Length(r) <= end && m[head] == r.kind && m[head + 1] == Length(r)
    ensures forall k :: 0 <= k < |r.body| ==> m[head + 2 + k] == r.body[k]
    ensures m[head + Length(r)..end] == rest
  {
  }

  /** Visiting a record does not touch the records behind it, and does what its fields say. */
  lemma VisitRecord(p: Parsed, base: nat, head: nat, end: nat, r: Record, rest: seq<byte>)
    requires head <= end && end + 20 <= |p.memory| && WellFormed(r) && (Roomy(r) || rest == [])
    requires p.memory[head..end] == Encode(r) + rest
    ensures var v := Visit(p, base, head);
            && head + Length(r) <= end && v.memory[head + Length(r)..end] == rest
            && v.cpus == p.cpus + (if r.kind == 0 then 1 else 0)
            && v.redirects == (if r.kind == 2 then Override(p.redirects, SourceOf(r), InterruptOf(r)) else p.redirects)
            && v.visited == p.visited + [(head, r.kind)]
  {
    RecordAt(p.memory, head, end, r, rest);
    if r.kind == 2 {
      assert p.memory[head + 2 + 1] == r.body[1];
      assert p.memory[head + 2 + 2] == r.body[2] && p.memory[head + 2 + 3] == r.body[3];
      assert p.memory[head + 2 + 4] == r.body[4] && p.memory[head + 2 + 5] == r.body[5];
    }
    var v := Visit(p, base, head);
    assert v.memory[head + Length(r)..end] == p.memory[head + Length(r)..end];
  }

  /** All records are roomy but perhaps the last, behind which there is nothing to overwrite. */
  predicate RoomyBeforeLast(records: seq<Record>) {
    forall i :: 0 <= i < |records| - 1 ==> Roomy(records[i])
  }

  /** The walk over such records visits exactly those, in order. */
  lemma {:induction false} WalkRecords(p: Parsed, base: nat, head: nat, end: nat, records: seq<Record>)
    requires (forall r :: r in records ==> WellFormed(r)) && RoomyBeforeLast(records)
    requires head <= end && end + 20 <= |p.memory| && p.memory[head..end] == EncodeAll(records)
    ensures var q := Walk(p, base, head, end);
            && q.cpus == p.cpus + Processors(records)
            && q.redirects == Sources(records, p.redirects)
            && q.visited == p.visited + Visits(records, head)
    decreases |records|
  {
    hide Walk, Visit, Visits, Encode, EncodeAll, Processors, Sources, Override, SourceOf, InterruptOf, Roomy;
    if records == [] {
      EmptyTable(p, base, head, end);
    } else {
      var r, rest := records[0], EncodeAll(records[1..]);
      FirstOfTable(p.visited, p.redirects, records, head);
      RecordAt(p.memory, head, end, r, rest);
      NoBytes(records[1..]);
      VisitRecord(p, base, head, end, r, rest);
      WalkStep(p, base, head, end);
      WalkRecords(Visit(p, base, head), base, head + Length(r), end, records[1..]);
    }
  }

  lemma NoBytes(records: seq<Record>)
    requires forall r :: r in records ==> WellFormed(r)
    ensures EncodeAll(records) == [] <==> records == []
  {
  }

  lemma EmptyTable(p: Parsed, base: nat, head: nat, end: nat)
    requires head <= end && end + 20 <= |p.memory| && p.memory[head..end] == EncodeAll([])
    ensures Walk(p, base, head, end) == p
    ensures Processors([]) == 0 && Sources([], p.redirects) == p.redirects && p.visited + Visits([], head) == p.visited
  {
  }

  lemma FirstOfTable(before: seq<(nat, byte)>, redirects: Redirects, records: seq<Record>, head: nat)
    requires records != [] && forall r :: r in records ==> WellFormed(r)
    ensures var r := records[0];
            && EncodeAll(records) == Encode(r) + EncodeAll(records[1..])
            && Processors(records) == (if r.kind == 0 then 1 else 0) + Processors(records[1..])
            && Sources(records, redirects)
            == Sources(records[1..], if r.kind == 2 then Override(redirects, SourceOf(r), InterruptOf(r)) else redirects)
            && before + Visits(records, head) == before + [(head, r.kind)] + Visits(records[1..], head + Length(r))
  {
  }

  lemma WalkStep(p: Parsed, base: nat, head: nat, end: nat)
    requires head < end && end + 20 <= |p.memory| && p.memory[head] <= 7 && p.memory[head + 1] > 0
    ensures Walk(p, base, head, end) == Walk(Visit(p, base, head), base, head + p.memory[head + 1], end)
  {
  }

  /**
    A table of well-formed records, roomy before the last: every record is visited in order, the
    processors are the type 0 records, and each source has the last override given for it.
    */
  lemma TableParsed(memory: seq<byte>, redirects: Redirects, base: nat, head: nat, end: nat, records: seq<Record>)
    requires (forall r :: r in records ==> WellFormed(r)) && RoomyBeforeLast(records)
    requires head <= end && end + 20 <= |memory| && memory[head..end] == EncodeAll(records)
    ensures var q := Walk(Parsed(0, redirects, [], memory), base, head, end);
            && q.cpus == Processors(records)
            && q.visited == Visits(records, head)
            && forall source :: 0 <= source < SOURCES ==>
                 q.redirects[source] == LastOverride(records, source, redirects[source])
  {
    WalkRecords(Parsed(0, redirects, [], memory), base, head, end, records);
    forall source | 0 <= source < SOURCES
      ensures Sources(records, redirects)[source] == LastOverride(records, source, redirects[source])
    {
      SourcesAreLast(records, redirects, source);
    }
  }

  // ---------------------------------------------------------------- remapping

  lemma {:induction false} LastOverrideElse(records: seq<Record>, source: nat, a: nat, b: nat)
    requires forall r :: r in records ==> WellFormed(r)
    ensures LastOverride(records, source, a) == LastOverride(records, source, b)
         || (LastOverride(records, source, a) == a && LastOverride(records, source, b) == b)
  {
    if records != [] {
      LastOverrideElse(records[..|records| - 1], source, a, b);
    }
  }

  /**
    After a table is parsed, an interrupt is remapped to the last override given for it, or to
    itself if there is none, exactly unless that override is to the number that marks a free entry.
    */
  lemma RemapsToLastExactly(memory: seq<byte>, redirects: Redirects, base: nat, head: nat, end: nat,
                            records: seq<Record>, irq: nat)
    requires (forall r :: r in records ==> WellFormed(r)) && RoomyBeforeLast(records)
    requires head <= end && end + 20 <= |memory| && memory[head..end] == EncodeAll(records)
    requires irq < IRQS && redirects[irq] == NO_OVERRIDE
    ensures Remapped(Walk(Parsed(0, redirects, [], memory), base, head, end).redirects, irq)
         == LastOverride(records, irq, irq)
       <==> LastOverride(records, irq, irq) != NO_OVERRIDE
  {
    TableParsed(memory, redirects, base, head, end, records);
    LastOverrideElse(records, irq, NO_OVERRIDE, irq);
  }

  // ---------------------------------------------------------------- sources behind the array

  lemma {:induction false} OverriddenSource(records: seq<Record>, i: nat, a: nat, b: nat)
    requires (forall r :: r in records ==> WellFormed(r)) && i < |records| && records[i].kind == 2
    ensures LastOverride(records, SourceOf(records[i]), a) == LastOverride(records, SourceOf(records[i]), b)
  {
    if i < |records| - 1 {
      OverriddenSource(records[..|records| - 1], i, a, b);
    }
  }

  lemma {:induction false} NoOverride(records: seq<Record>, source: nat, before: nat)
    requires forall r :: r in records ==> WellFormed(r) && (r.kind == 2 ==> SourceOf(r) != source)
    ensures LastOverride(records, source, before) == before
  {
    if records != [] {
      NoOverride(records[..|records| - 1], source, before);
    }
  }

  /** Whatever lies behind the override array is left alone exactly by the tables whose sources are all below 16. */
  lemma OverridesStayInsideExactly(memory: seq<byte>, base: nat, head: nat, end: nat, records: seq<Record>)
    requires (forall r :: r in records ==> WellFormed(r)) && RoomyBeforeLast(records)
    requires head <= end && end + 20 <= |memory| && memory[head..end] == EncodeAll(records)
    ensures (forall r: Redirects :: Walk(Parsed(0, r, [], memory), base, head, end).redirects[IRQS..] == r[IRQS..])
       <==> (forall x :: x in records && x.kind == 2 ==> SourceOf(x) < IRQS)
  {
    hide Walk, LastOverride, Visits, EncodeAll, SourceOf;
    if forall x :: x in records && x.kind == 2 ==> SourceOf(x) < IRQS {
      forall r: Redirects
        ensures Walk(Parsed(0, r, [], memory), base, head, end).redirects[IRQS..] == r[IRQS..]
      {
        TableParsed(memory, r, base, head, end, records);
        forall source | IRQS <= source < SOURCES
          ensures LastOverride(records, source, r[source]) == r[source]
        {
          NoOverride(records, source, r[source]);
        }
      }
    } else {
      var i :| 0 <= i < |records| && records[i].kind == 2 && SourceOf(records[i]) >= IRQS;
      var source := SourceOf(records[i]);
      var last := LastOverride(records, source, 0);
      var r: Redirects := seq(SOURCES, _ => last + 1);
      TableParsed(memory, r, base, head, end, records);
      OverriddenSource(records, i, 0, last + 1);
      var q := Walk(Parsed(0, r, [], memory), base, head, end);
      assert q.redirects[IRQS..][source - IRQS] == last;
      assert r[IRQS..][source - IRQS] == last + 1;
    }
  }

  // ---------------------------------------------------------------- the order of bytes

  /** An override with its interrupt as four little-endian bytes. */
  function OverrideRecord(bus: byte, source: byte, interrupt: nat, flags: seq<byte>): (r: Record)
    requires interrupt < 0x1_0000_0000 && |flags| == 2
    ensures WellFormed(r) && Roomy(r)
  {
    Record(2, [bus, source, interrupt % 256, interrupt / 0x100 % 256, interrupt / 0x1_0000 % 256, interrupt / 0x100_0000] + flags)
  }

  lemma NumberFromBytes(n: nat)
    requires n < 0x1_0000_0000
    ensures n % 256 + 0x100 * (n / 0x100 % 256) + 0x1_0000 * (n / 0x1_0000 % 256) + 0x100_0000 * (n / 0x100_0000) == n
  {
    assert n / 0x1_0000 == n / 0x100 / 0x100;
    assert n / 0x100_0000 == n / 0x1_0000 / 0x100;
  }

  /** A table that ends with such an override redirects its source to that number. */
  lemma OverrideReadsNumber(memory: seq<byte>, redirects: Redirects, base: nat, head: nat, end: nat, records: seq<Record>,
                            bus: byte, source: byte, interrupt: nat, flags: seq<byte>)
    requires interrupt < 0x1_0000_0000 && |flags| == 2
    requires forall r :: r in records ==> WellFormed(r) && Roomy(r)
    requires head <= end && end + 20 <= |memory|
    requires memory[head..end] == EncodeAll(records + [OverrideRecord(bus, source, interrupt, flags)])
    ensures Walk(Parsed(0, redirects, [], memory), base, head, end).redirects[source] == interrupt
  {
    var r := OverrideRecord(bus, source, interrupt, flags);
    var all := records + [r];
    hide Walk, EncodeAll, Override;
    TableParsed(memory, redirects, base, head, end, all);
    NumberFromBytes(interrupt);
    assert all[|all| - 1] == r && SourceOf(r) == source && InterruptOf(r) == interrupt;
  }

  /** The address stored for a type 7 record is that of its last field, in the same order. */
  lemma StoredAddress(m: seq<byte>, base: nat, head: nat)
    requires head + 20 <= |m| && base + head + 16 < 0x1_0000_0000
    ensures Word(StoreAddress(m, base, head), head + 16) == base + head + 16
    ensures forall i :: 0 <= i < |m| && !(head + 16 <= i < head + 20) ==> StoreAddress(m, base, head)[i] == m[i]
  {
    NumberFromBytes(base + head + 16);
  }

  // ---------------------------------------------------------------- other bytes

  /** Types 8 to 10 and records of length 0 end the walk where they are. */
  lemma WalkStops(p: Parsed, base: nat, head: nat, end: nat)
    requires head < end && end + 20 <= |p.memory|
    requires 8 <= p.memory[head] <= 10 || (p.memory[head] <= 7 && p.memory[head + 1] == 0)
    ensures Walk(p, base, head, end) == p
  {
  }

  /** Bytes above 10 before a table do not change what is read from it. */
  lemma {:induction false} WalkSkipsJunk(p: Parsed, base: nat, head: nat, start: nat, end: nat)
    requires head <= start <= end && end + 20 <= |p.memory| && forall i :: head <= i < start ==> p.memory[i] > 10
    ensures Walk(p, base, head, end) == Walk(p, base, start, end)
    decreases start - head
  {
    if head < start {
      WalkSkipsJunk(p, base, head + 1, start, end);
    }
  }

  // ---------------------------------------------------------------- short type 7 records

  /** The stored address changes 4 bytes, the last of them 20 bytes into the record. */
  lemma StoreTouches(m: seq<byte>, base: nat, head: nat, i: nat)
    requires head + 20 <= |m| && i < |m|
    ensures !(head + 16 <= i < head + 20) ==> StoreAddress(m, base, head)[i] == m[i]
    ensures StoreAddress(m, base, head)[head + 19] == (base + head + 16) / 0x100_0000 % 256
  {
  }

  /** The address stored for a type 7 record stays inside it exactly when the record has 20 bytes. */
  lemma StoreStaysInsideExactly(base: nat, head: nat, length: nat, size: nat)
    requires head + 20 <= size && head + length <= size
    ensures (forall m: seq<byte> :: |m| == size ==>
               StoreAddress(m, base, head)[head + length..] == m[head + length..])
       <==> length >= 20
  {
    hide StoreAddress;
    if length < 20 {
      var last: byte := (base + head + 16) / 0x100_0000 % 256;
      var m: seq<byte> := seq(size, _ => if last == 0 then 1 else 0);
      var t := StoreAddress(m, base, head);
      StoreTouches(m, base, head, head + 19);
      assert t[head + length..][19 - length] != m[head + length..][19 - length];
    } else {
      forall m: seq<byte> | |m| == size
        ensures StoreAddress(m, base, head)[head + length..] == m[head + length..]
      {
        forall i | head + length <= i < size
          ensures StoreAddress(m, base, head)[i] == m[i]
        {
          StoreTouches(m, base, head, i);
        }
      }
    }
  }

  /** The walk only adds visits, each no earlier than where it stands. */
  lemma {:induction false} WalkVisitsOnward(p: Parsed, base: nat, head: nat, end: nat)
    requires end + 20 <= |p.memory|
    ensures var v := Walk(p, base, head, end).visited;
            && |p.visited| <= |v|
            && (|p.visited| < |v| ==> v[|p.visited|].0 >= head)
            && (forall i :: 0 <= i < |p.visited| ==> v[i] == p.visited[i])
    decreases end - head
  {
    hide Visit, StoreAddress;
    if head < end {
      var t, length := p.memory[head], p.memory[head + 1];
      if t <= 7 {
        if length > 0 {
          VisitOnce(p, base, head);
          WalkVisitsOnward(Visit(p, base, head), base, head + length, end);
        }
      } else if t > 10 {
        WalkVisitsOnward(p, base, head + 1, end);
      }
    }
  }

  lemma VisitOnce(p: Parsed, base: nat, head: nat)
    requires head + 20 <= |p.memory|
    ensures Visit(p, base, head).visited == p.visited + [(head, p.memory[head])]
  {
  }

  /** Where the record at an index starts. */
  function StartOf(records: seq<Record>, head: nat, i: nat): nat
    requires i < |records|
  {
    if i == 0 then head else StartOf(records[1..], head + Length(records[0]), i - 1)
  }

  /** No byte of an address but the lowest is the type of a record, or ends the walk. */
  predicate HidesType(address: nat) {
    address / 0x100 % 256 > 10 && address / 0x1_0000 % 256 > 10 && address / 0x100_0000 % 256 > 10
  }

  lemma StoredHides(m: seq<byte>, base: nat, head: nat, length: nat)
    requires head + 20 <= |m| && HidesType(base + head + 16) && 17 <= length < 20
    ensures StoreAddress(m, base, head)[head + length] > 10
  {
  }

  /** Such an address, stored over the start of the next record, hides its type. */
  lemma ShortRecordHidesNext(p: Parsed, base: nat, head: nat, end: nat, r: Record, rest: seq<byte>)
    requires WellFormed(r) && !Roomy(r) && rest != []
    requires head <= end && end + 20 <= |p.memory| && p.memory[head..end] == Encode(r) + rest
    requires HidesType(base + head + 16)
    ensures var next := head + Length(r);
            && next < end && Visit(p, base, head).memory[next] > 10
            && Visit(p, base, head).visited == p.visited + [(head, r.kind)]
            && Walk(p, base, head, end) == Walk(Visit(p, base, head), base, next, end)
  {
    RecordAt(p.memory, head, end, r, rest);
    assert |p.memory[head..end]| == |Encode(r)| + |rest|;
    StoredHides(p.memory, base, head, Length(r));
    VisitOnce(p, base, head);
    WalkStep(p, base, head, end);
  }

  lemma FirstVisit(records: seq<Record>, start: nat)
    requires records != []
    ensures Visits(records, start) != [] && Visits(records, start)[0] == (start, records[0].kind)
  {
  }

  lemma ShortFirstMisleads(p: Parsed, base: nat, head: nat, end: nat, records: seq<Record>)
    requires (forall r :: r in records ==> WellFormed(r)) && |records| > 1 && !Roomy(records[0])
    requires head <= end && end + 20 <= |p.memory| && p.memory[head..end] == EncodeAll(records)
    requires HidesType(base + head + 16)
    ensures Walk(p, base, head, end).visited != p.visited + Visits(records, head)
  {
    hide Walk, Visit, Visits, Encode, EncodeAll, Roomy;
    var r, rest, next := records[0], records[1..], head + Length(records[0]);
    var v := Visit(p, base, head);
    FirstOfTable(p.visited, p.redirects, records, head);
    NoBytes(rest);
    ShortRecordHidesNext(p, base, head, end, r, EncodeAll(rest));
    SkipOne(v, base, next, end);
    WalkVisitsOnward(v, base, next + 1, end);
    FirstVisit(rest, next);
    assert (v.visited + Visits(rest, next))[|v.visited|] == (next, rest[0].kind);
  }

  /** A short record before the last misleads the walk, for some place of the table in memory. */
  lemma {:induction false} ShortRecordMisleads(p: Parsed, base: nat, head: nat, end: nat, records: seq<Record>, i: nat)
    requires (forall r :: r in records ==> WellFormed(r)) && i < |records| - 1
    requires !Roomy(records[i]) && forall j :: 0 <= j < i ==> Roomy(records[j])
    requires head <= end && end + 20 <= |p.memory| && p.memory[head..end] == EncodeAll(records)
    requires HidesType(base + StartOf(records, head, i) + 16)
    ensures Walk(p, base, head, end).visited != p.visited + Visits(records, head)
    decreases i
  {
    hide Walk, Visit, Visits, Encode, EncodeAll, Roomy;
    if i == 0 {
      ShortFirstMisleads(p, base, head, end, records);
    } else {
      var r, rest := records[0], EncodeAll(records[1..]);
      FirstOfTable(p.visited, p.redirects, records, head);
      RecordAt(p.memory, head, end, r, rest);
      VisitRecord(p, base, head, end, r, rest);
      WalkStep(p, base, head, end);
      ShortRecordMisleads(Visit(p, base, head), base, head + Length(r), end, records[1..], i - 1);
    }
  }

  lemma SkipOne(p: Parsed, base: nat, head: nat, end: nat)
    requires head < end && end + 20 <= |p.memory| && p.memory[head] > 10
    ensures Walk(p, base, head, end) == Walk(p, base, head + 1, end)
  {
  }

  lemma FirstShort(records: seq<Record>) returns (i: nat)
    requires !RoomyBeforeLast(records)
    ensures i < |records| - 1 && !Roomy(records[i]) && forall j :: 0 <= j < i ==> Roomy(records[j])
  {
    i := 0;
    while Roomy(records[i])
      invariant i < |records| - 1 && forall j :: 0 <= j < i ==> Roomy(records[j])
      decreases |records| - i
    {
      i := i + 1;
    }
  }

  const KERNEL_BASE := 0xC000_0000
  const TABLE_WINDOW := 0xFFC0_0000

  /** The memory lies in the kernel's address space, below the window of the page tables. */
  predicate Mapped(base: nat, size: nat) {
    KERNEL_BASE <= base && base + size <= TABLE_WINDOW
  }

  /** There is a place in it for which the address at an offset hides the type of a record. */
  lemma HidingPlace(offset: nat, size: nat) returns (base: nat)
    requires offset <= size <= 0x3E00_0000
    ensures Mapped(base, size) && HidesType(base + offset)
  {
    var t := offset / 0x100_0000;
    var address := 0x100_0000 * (0xC0 + t) + 0xFF_FFFF;
    base := address - offset;
    assert address / 0x1_0000 == 0x100 * (0xC0 + t) + 0xFF;
    assert address / 0x100 == 0x1_0000 * (0xC0 + t) + 0xFFFF;
    assert address / 0x100_0000 == 0xC0 + t;
  }

  lemma {:induction false} StartInside(m: seq<byte>, head: nat, end: nat, records: seq<Record>, i: nat)
    requires (forall r :: r in records ==> WellFormed(r)) && i < |records|
    requires head <= end <= |m| && m[head..end] == EncodeAll(records)
    ensures head <= StartOf(records, head, i) < end
    decreases i
  {
    hide Encode;
    var r, rest := records[0], EncodeAll(records[1..]);
    assert EncodeAll(records) == Encode(r) + rest;
    RecordAt(m, head, end, r, rest);
    if i > 0 {
      StartInside(m, head + Length(r), end, records[1..], i - 1);
    }
  }

  /**
    Wherever a table of well-formed records lies in the kernel's address space, the walk visits
    exactly its records, if and only if every record of type 7 before the last has 20 bytes. The
    memory is small enough to have more than one place there.
    */
  lemma TableVisitedExactly(memory: seq<byte>, redirects: Redirects, head: nat, end: nat, records: seq<Record>)
    requires (forall r :: r in records ==> WellFormed(r)) && |memory| <= 0x3E00_0000
    requires head <= end && end + 20 <= |memory| && memory[head..end] == EncodeAll(records)
    ensures (forall base: nat :: Mapped(base, |memory|) ==>
               Walk(Parsed(0, redirects, [], memory), base, head, end).visited == Visits(records, head))
       <==> RoomyBeforeLast(records)
  {
    hide Walk, Visits, EncodeAll, Roomy, Mapped, HidesType;
    var p := Parsed(0, redirects, [], memory);
    if RoomyBeforeLast(records) {
      forall base: nat | Mapped(base, |memory|)
        ensures Walk(p, base, head, end).visited == Visits(records, head)
      {
        TableParsed(memory, redirects, base, head, end, records);
      }
    } else {
      var i := FirstShort(records);
      StartInside(memory, head, end, records, i);
      var base := HidingPlace(StartOf(records, head, i) + 16, |memory|);
      assert base + (StartOf(records, head, i) + 16) == base + StartOf(records, head, i) + 16;
      ShortRecordMisleads(p, base, head, end, records, i);
      assert p.visited + Visits(records, head) == Visits(records, head);
    }
  }

  /** A table whose processor is lost: a 17-byte type 7 record, then a processor. */
  lemma ShortRecordLosesProcessor(m: seq<byte>, redirects: Redirects)
    requires |m| == 45 && m[0] == 7 && m[1] == 17 && m[17] == 0 && m[18] == 8
    ensures Walk(Parsed(0, redirects, [], m), 0x1000_0000, 0, 25).cpus == 0
  {
  }
}
