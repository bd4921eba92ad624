// The zip writer and the reader of the archives it writes (APPNOTE 4.3.7, 4.3.12 and 4.3.16).

module Zip {
  import opened Basics
  import opened Utf8
  import opened Crc

  datatype Kind = Executable | File | Directory

  datatype ZipError =
    | NotRelative
    | TooLarge
    | TooShort
    | NoEndRecord
    | InsideField
    | NoCentralHeader
    | CompressedEntry
    | NamePastEnd
    | NameNotUtf8
    | NoLocalHeader
    | DataPastEnd
    | CrcMismatch

  const MADE_BY := 0x0314
  const DOS_DATE := 0x0021
  const DOS_TIME := 0x0000
  const LOCAL_SIGNATURE := 0x0403_4B50
  const CENTRAL_SIGNATURE := 0x0201_4B50
  const END_SIGNATURE := 0x0605_4B50
  const LOCAL_HEADER_LEN := 30
  const CENTRAL_HEADER_LEN := 46
  const END_RECORD_LEN := 22

  /** The Unix mode in the high half (0o100755, 0o100644, 0o040755), and the MS-DOS directory bit. */
  function ExternalAttributes(kind: Kind): nat {
    match kind
    case Executable => 0x81ED_0000
    case File => 0x81A4_0000
    case Directory => 0x41ED_0010
  }

  function Needed(kind: Kind): nat {
    if kind == Directory then 20 else 10
  }

  // ----- little-endian fields -----

  function U16(v: nat): (b: seq<byte>)
    requires v < 0x1_0000
    ensures |b| == 2
  {
    [v % 0x100, v / 0x100]
  }

  function U32(v: nat): (b: seq<byte>)
    requires v < 0x1_0000_0000
    ensures |b| == 4
  {
    U16(v % 0x1_0000) + U16(v / 0x1_0000)
  }

  function Word16(a: nat, b: nat): nat {
    a + 0x100 * b
  }

  function GetU16(bytes: seq<byte>, at: nat): (r: Result<nat, ZipError>)
    ensures r.Ok? ==> r.value < 0x1_0000
  {
    if at + 2 <= |bytes| then Ok(Word16(bytes[at], bytes[at + 1])) else Err(InsideField)
  }

  function GetU32(bytes: seq<byte>, at: nat): (r: Result<nat, ZipError>)
    ensures r.Ok? ==> r.value < 0x1_0000_0000
  {
    if at + 4 <= |bytes| then
      Ok(Word16(bytes[at], bytes[at + 1]) + 0x1_0000 * Word16(bytes[at + 2], bytes[at + 3]))
    else Err(InsideField)
  }

  lemma GetsU16(bytes: seq<byte>, at: nat, v: nat)
    requires v < 0x1_0000 && At(bytes, at, U16(v))
    ensures GetU16(bytes, at) == Ok(v)
  {
    AtIndex(bytes, at, U16(v), 0);
    AtIndex(bytes, at, U16(v), 1);
  }

  lemma GetsU32(bytes: seq<byte>, at: nat, v: nat)
    requires v < 0x1_0000_0000 && At(bytes, at, U32(v))
    ensures GetU32(bytes, at) == Ok(v)
  {
    var low, high := v % 0x1_0000, v / 0x1_0000;
    AtSplits(bytes, at, U16(low), U16(high));
    GetsU16(bytes, at, low);
    GetsU16(bytes, at + 2, high);
  }

  // ----- what is written -----

  /** An entry to write; the name is a string's UTF-8 bytes. */
  datatype Entry = Entry(name: seq<byte>, kind: Kind, data: seq<byte>)

  /** What the directory records of a written entry. */
  datatype Written = Written(name: seq<byte>, kind: Kind, crc: nat, size: nat, offset: nat)

  predicate EndsWithSlash(name: seq<byte>) {
    name != [] && name[|name| - 1] == SLASH
  }

  /** A directory's name ends in a slash. */
  function Named(e: Entry): seq<byte> {
    if e.kind == Directory && !EndsWithSlash(e.name) then e.name + [SLASH] else e.name
  }

  /** A directory has no bytes of its own. */
  function Stored(e: Entry): seq<byte> {
    if e.kind == Directory then [] else e.data
  }

  predicate Relative(name: seq<byte>) {
    BACKSLASH !in name && (name == [] || name[0] != SLASH)
  }

  predicate Fits16(v: nat) {
    v < 0x1_0000
  }

  predicate Fits32(v: nat) {
    v < 0x1_0000_0000
  }

  ghost predicate WrittenFits(w: Written) {
    Fits32(w.crc) && Fits32(w.size) && Fits32(w.offset) && Fits16(|w.name|)
  }

  ghost function LocalHeader(w: Written): (b: seq<byte>)
    requires WrittenFits(w)
    ensures |b| == LOCAL_HEADER_LEN
  {
    U32(LOCAL_SIGNATURE) + U16(Needed(w.kind)) + U16(0) + U16(0) + U16(DOS_TIME) + U16(DOS_DATE) +
    U32(w.crc) + U32(w.size) + U32(w.size) + U16(|w.name|) + U16(0)
  }

  ghost function LocalRecord(w: Written, data: seq<byte>): (b: seq<byte>)
    requires WrittenFits(w)
    ensures |b| == LOCAL_HEADER_LEN + |w.name| + |data|
  {
    LocalHeader(w) + (w.name + data)
  }

  ghost function CentralHeader(w: Written): (b: seq<byte>)
    requires WrittenFits(w)
    ensures |b| == CENTRAL_HEADER_LEN
  {
    U32(CENTRAL_SIGNATURE) + U16(MADE_BY) + U16(Needed(w.kind)) + U16(0) + U16(0) + U16(DOS_TIME) + U16(DOS_DATE) +
    U32(w.crc) + U32(w.size) + U32(w.size) + U16(|w.name|) + U16(0) + U16(0) + U16(0) + U16(0) +
    U32(ExternalAttributes(w.kind)) + U32(w.offset)
  }

  ghost function EndRecord(count: nat, length: nat, start: nat): (b: seq<byte>)
    requires Fits16(count) && Fits32(length) && Fits32(start)
    ensures |b| == END_RECORD_LEN
  {
    U32(END_SIGNATURE) + U16(0) + U16(0) + U16(count) + U16(count) + U32(length) + U32(start) + U16(0)
  }

  // ----- the fields stand where the format puts them -----

  lemma LocalFields(w: Written, bytes: seq<byte>, p: nat)
    requires WrittenFits(w) && At(bytes, p, LocalHeader(w))
    ensures GetU32(bytes, p) == Ok(LOCAL_SIGNATURE)
    ensures GetU16(bytes, p + 26) == Ok(|w.name|)
    ensures GetU16(bytes, p + 28) == Ok(0)
  {
    var h := LocalHeader(w);
    FieldAt(bytes, p, h, 0, U32(LOCAL_SIGNATURE));
    FieldAt(bytes, p, h, 26, U16(|w.name|));
    FieldAt(bytes, p, h, 28, U16(0));
    GetsU32(bytes, p, LOCAL_SIGNATURE);
    GetsU16(bytes, p + 26, |w.name|);
    GetsU16(bytes, p + 28, 0);
  }

  lemma FieldAt(bytes: seq<byte>, p: nat, header: seq<byte>, k: nat, field: seq<byte>)
    requires At(bytes, p, header) && At(header, k, field)
    ensures At(bytes, p + k, field)
  {
    forall i: nat | i < |field| ensures bytes[p + k + i] == field[i] {
      AtIndex(header, k, field, i);
      AtIndex(bytes, p, header, k + i);
    }
  }

  lemma CentralFields(w: Written, bytes: seq<byte>, p: nat)
    requires WrittenFits(w) && At(bytes, p, CentralHeader(w))
    ensures GetU32(bytes, p) == Ok(CENTRAL_SIGNATURE)
    ensures GetU16(bytes, p + 10) == Ok(0)
    ensures GetU32(bytes, p + 16) == Ok(w.crc)
    ensures GetU32(bytes, p + 24) == Ok(w.size)
    ensures GetU16(bytes, p + 28) == Ok(|w.name|)
    ensures GetU16(bytes, p + 30) == Ok(0) && GetU16(bytes, p + 32) == Ok(0)
    ensures GetU32(bytes, p + 38) == Ok(ExternalAttributes(w.kind))
    ensures GetU32(bytes, p + 42) == Ok(w.offset)
  {
    hide At, U16, U32;
    var h := CentralHeader(w);
    CentralLayout(w);
    FieldAt(bytes, p, h, 0, U32(CENTRAL_SIGNATURE));
    FieldAt(bytes, p, h, 10, U16(0));
    FieldAt(bytes, p, h, 16, U32(w.crc));
    FieldAt(bytes, p, h, 24, U32(w.size));
    FieldAt(bytes, p, h, 28, U16(|w.name|));
    FieldAt(bytes, p, h, 30, U16(0));
    FieldAt(bytes, p, h, 32, U16(0));
    FieldAt(bytes, p, h, 38, U32(ExternalAttributes(w.kind)));
    FieldAt(bytes, p, h, 42, U32(w.offset));
    GetsU32(bytes, p, CENTRAL_SIGNATURE);
    GetsU16(bytes, p + 10, 0);
    GetsU32(bytes, p + 16, w.crc);
    GetsU32(bytes, p + 24, w.size);
    GetsU16(bytes, p + 28, |w.name|);
    GetsU16(bytes, p + 30, 0);
    GetsU16(bytes, p + 32, 0);
    GetsU32(bytes, p + 38, ExternalAttributes(w.kind));
    GetsU32(bytes, p + 42, w.offset);
  }

  lemma CentralLayout(w: Written)
    requires WrittenFits(w)
    ensures At(CentralHeader(w), 0, U32(CENTRAL_SIGNATURE))
    ensures At(CentralHeader(w), 10, U16(0))
    ensures At(CentralHeader(w), 16, U32(w.crc))
    ensures At(CentralHeader(w), 24, U32(w.size))
    ensures At(CentralHeader(w), 28, U16(|w.name|))
    ensures At(CentralHeader(w), 30, U16(0)) && At(CentralHeader(w), 32, U16(0))
    ensures At(CentralHeader(w), 38, U32(ExternalAttributes(w.kind)))
    ensures At(CentralHeader(w), 42, U32(w.offset))
  {
    hide U16, U32;
  }

  lemma EndFields(count: nat, length: nat, start: nat, bytes: seq<byte>, p: nat)
    requires Fits16(count) && Fits32(length) && Fits32(start)
    requires At(bytes, p, EndRecord(count, length, start))
    ensures GetU32(bytes, p) == Ok(END_SIGNATURE)
    ensures GetU16(bytes, p + 10) == Ok(count)
    ensures GetU32(bytes, p + 16) == Ok(start)
  {
    hide U16, U32;
    var h := EndRecord(count, length, start);
    FieldAt(bytes, p, h, 0, U32(END_SIGNATURE));
    FieldAt(bytes, p, h, 10, U16(count));
    FieldAt(bytes, p, h, 16, U32(start));
    GetsU32(bytes, p, END_SIGNATURE);
    GetsU16(bytes, p + 10, count);
    GetsU32(bytes, p + 16, start);
  }

  // ----- the writer -----

  /** The directory records of the entries when the first one's local header stands at `offset`. */
  ghost function Plan(entries: seq<Entry>, offset: nat): (r: Result<seq<Written>, ZipError>)
    ensures r.Ok? ==> |r.value| == |entries| && forall i :: 0 <= i < |entries| ==> WrittenFits(r.value[i])
  {
    hide CrcSpec, Named, Stored, Relative, Prepend;
    if entries == [] then Ok([])
    else
      var name, data := Named(entries[0]), Stored(entries[0]);
      CrcFits(data);
      if !Relative(name) then Err(NotRelative)
      else if !Fits32(offset) || !Fits32(|data|) || !Fits16(|name|) then Err(TooLarge)
      else
        var w := Written(name, entries[0].kind, CrcSpec(data), |data|, offset);
        var rest := Plan(entries[1..], offset + LOCAL_HEADER_LEN + |name| + |data|);
        OnePlanned(w, rest);
        Prepend([w], rest)
  }

  lemma OnePlanned(w: Written, rest: Result<seq<Written>, ZipError>)
    requires WrittenFits(w)
    requires rest.Ok? ==> forall i :: 0 <= i < |rest.value| ==> WrittenFits(rest.value[i])
    ensures var r := Prepend([w], rest);
      r.Ok? ==> |r.value| == |rest.value| + 1 && forall i :: 0 <= i < |r.value| ==> WrittenFits(r.value[i])
  {
    hide WrittenFits;
  }

  lemma CrcFits(data: seq<byte>)
    ensures Fits32(CrcSpec(data))
  {
    hide CrcSpec;
    CrcIs32Bits(data);
  }

  ghost predicate PlanFits(plan: seq<Written>) {
    forall i :: 0 <= i < |plan| ==> WrittenFits(plan[i])
  }

  ghost function Locals(plan: seq<Written>, entries: seq<Entry>): seq<byte>
    requires |plan| == |entries| && PlanFits(plan)
  {
    if plan == [] then [] else LocalRecord(plan[0], Stored(entries[0])) + Locals(plan[1..], entries[1..])
  }

  ghost function CentralRecord(w: Written): (b: seq<byte>)
    requires WrittenFits(w)
    ensures |b| == CENTRAL_HEADER_LEN + |w.name|
  {
    CentralHeader(w) + w.name
  }

  ghost function Central(plan: seq<Written>): seq<byte>
    requires PlanFits(plan)
  {
    if plan == [] then [] else CentralRecord(plan[0]) + Central(plan[1..])
  }

  /** Local records, then the directory, then the end record, each within the classic limits. */
  ghost function WriteSpec(entries: seq<Entry>): Result<seq<byte>, ZipError> {
    var plan :- Plan(entries, 0);
    var locals, central := Locals(plan, entries), Central(plan);
    if !Fits16(|plan|) || !Fits32(|central|) || !Fits32(|locals|) then Err(TooLarge)
    else
      var bytes := locals + (central + EndRecord(|plan|, |central|, |locals|));
      if !Fits32(|bytes|) then Err(TooLarge) else Ok(bytes)
  }

  method PushLocal(out: seq<byte>, w: Written, data: seq<byte>) returns (more: seq<byte>)
    requires WrittenFits(w)
    ensures more == out + LocalRecord(w, data)
  {
    hide U16, U32;
    var header := U32(LOCAL_SIGNATURE);
    header := header + U16(Needed(w.kind));
    header := header + U16(0) + U16(0);
    header := header + U16(DOS_TIME) + U16(DOS_DATE);
    header := header + U32(w.crc) + U32(w.size) + U32(w.size);
    header := header + U16(|w.name|) + U16(0);
    assert header == LocalHeader(w);
    more := out + header + w.name + data;
    assert more == out + (header + (w.name + data));
  }

  method PushCentral(out: seq<byte>, w: Written) returns (more: seq<byte>)
    requires WrittenFits(w)
    ensures more == out + CentralRecord(w)
  {
    hide U16, U32;
    var header := U32(CENTRAL_SIGNATURE) + U16(MADE_BY);
    header := header + U16(Needed(w.kind));
    header := header + U16(0) + U16(0);
    header := header + U16(DOS_TIME) + U16(DOS_DATE);
    header := header + U32(w.crc) + U32(w.size) + U32(w.size);
    header := header + U16(|w.name|) + U16(0) + U16(0) + U16(0) + U16(0);
    header := header + U32(ExternalAttributes(w.kind)) + U32(w.offset);
    assert header == CentralHeader(w);
    more := out + header + w.name;
    assert more == out + (header + w.name);
  }

  /** The entry loop: checks, checksums and local records. */
  method WriteLocals(entries: seq<Entry>) returns (r: Result<seq<Written>, ZipError>, out: seq<byte>)
    ensures r == Plan(entries, 0)
    ensures r.Ok? ==> out == Locals(r.value, entries)
  {
    hide LocalRecord, CrcSpec, WrittenFits, Named, Stored, Relative, Locals;
    out := [];
    var written: seq<Written> := [];
    ghost var goal := Plan(entries, 0);
    assert entries[0..] == entries;
    PrependNothing(goal);
    NoLocals(written, entries[..0]);
    for i := 0 to |entries|
      invariant |written| == i && PlanFits(written)
      invariant goal == Prepend(written, Plan(entries[i..], |out|))
      invariant out == Locals(written, entries[..i])
    {
      var e := entries[i];
      var name, data := Named(e), Stored(e);
      assert entries[i..][1..] == entries[i + 1..];
      if !Relative(name) {
        return Err(NotRelative), out;
      }
      if !Fits32(|out|) || !Fits32(|data|) || !Fits16(|name|) {
        return Err(TooLarge), out;
      }
      var crc := Crc32(data);
      CrcFits(data);
      var w := Written(name, e.kind, crc, |data|, |out|);
      assert WrittenFits(w) by {
        RecordFits(w);
      }
      LocalsAppend(written, entries[..i], w, e);
      assert entries[..i + 1] == entries[..i] + [e];
      PrependTwice(written, [w], Plan(entries[i + 1..], |out| + LOCAL_HEADER_LEN + |name| + |data|));
      out := PushLocal(out, w, data);
      written := written + [w];
    }
    assert entries[..|entries|] == entries && written + [] == written;
    r := Ok(written);
  }

  lemma NoLocals(plan: seq<Written>, entries: seq<Entry>)
    requires plan == [] && entries == []
    ensures Locals(plan, entries) == []
  {
  }

  lemma RecordFits(w: Written)
    requires Fits32(w.crc) && Fits32(w.size) && Fits32(w.offset) && Fits16(|w.name|)
    ensures WrittenFits(w)
  {
  }

  lemma {:induction false} LocalsAppend(plan: seq<Written>, entries: seq<Entry>, w: Written, e: Entry)
    requires |plan| == |entries| && PlanFits(plan) && WrittenFits(w)
    ensures Locals(plan + [w], entries + [e]) == Locals(plan, entries) + LocalRecord(w, Stored(e))
    decreases |plan|
  {
    hide LocalRecord, WrittenFits;
    if plan == [] {
      assert (plan + [w])[1..] == [] && (entries + [e])[1..] == [];
    } else {
      LocalsAppend(plan[1..], entries[1..], w, e);
      assert (plan + [w])[1..] == plan[1..] + [w] && (entries + [e])[1..] == entries[1..] + [e];
    }
  }

  lemma {:induction false} CentralAppend(plan: seq<Written>, w: Written)
    requires PlanFits(plan) && WrittenFits(w)
    ensures Central(plan + [w]) == Central(plan) + CentralRecord(w)
    decreases |plan|
  {
    hide CentralRecord, WrittenFits;
    if plan == [] {
      assert (plan + [w])[1..] == [];
    } else {
      CentralAppend(plan[1..], w);
      assert (plan + [w])[1..] == plan[1..] + [w];
    }
  }

  method WriteCentral(start: seq<byte>, written: seq<Written>) returns (out: seq<byte>)
    requires PlanFits(written)
    ensures out == start + Central(written)
  {
    hide CentralRecord, WrittenFits;
    out := start;
    for i := 0 to |written|
      invariant out == start + Central(written[..i])
    {
      CentralAppend(written[..i], written[i]);
      assert written[..i + 1] == written[..i] + [written[i]];
      out := PushCentral(out, written[i]);
    }
    assert written[..|written|] == written;
  }

  method Write(entries: seq<Entry>) returns (r: Result<seq<byte>, ZipError>)
    ensures r == WriteSpec(entries)
  {
    hide Locals, Central, Plan, U16, U32;
    var planned, out := WriteLocals(entries);
    var written :- planned;
    var directoryStart := |out|;
    out := WriteCentral(out, written);
    var directoryLen := |out| - directoryStart;
    if !Fits16(|written|) || !Fits32(directoryLen) || !Fits32(directoryStart) {
      return Err(TooLarge);
    }
    var end := U32(END_SIGNATURE) + U16(0) + U16(0);
    end := end + U16(|written|) + U16(|written|);
    end := end + U32(directoryLen) + U32(directoryStart) + U16(0);
    assert end == EndRecord(|written|, directoryLen, directoryStart);
    out := out + end;
    if !Fits32(|out|) {
      return Err(TooLarge);
    }
    assert out == Locals(written, entries) + (Central(written) + end);
    r := Ok(out);
  }

  // ----- the reader -----

  datatype Listed = Listed(name: seq<byte>, external: nat, crc: nat, size: nat, offset: nat)

  ghost function ListFrom(bytes: seq<byte>, at: nat, count: nat): Result<seq<Listed>, ZipError>
    decreases count
  {
    if count == 0 then Ok([])
    else
      var (listed, next) :- ListOne(bytes, at);
      Prepend([listed], ListFrom(bytes, next, count - 1))
  }

  ghost function ListOne(bytes: seq<byte>, at: nat): Result<(Listed, nat), ZipError> {
    var signature :- GetU32(bytes, at);
    if signature != CENTRAL_SIGNATURE then Err(NoCentralHeader)
    else
      var compression :- GetU16(bytes, at + 10);
      if compression != 0 then Err(CompressedEntry)
      else
        var crc :- GetU32(bytes, at + 16);
        var size :- GetU32(bytes, at + 24);
        var nameLen :- GetU16(bytes, at + 28);
        var extraLen :- GetU16(bytes, at + 30);
        var commentLen :- GetU16(bytes, at + 32);
        var external :- GetU32(bytes, at + 38);
        var offset :- GetU32(bytes, at + 42);
        var nameStart := at + CENTRAL_HEADER_LEN;
        if nameStart + nameLen > |bytes| then Err(NamePastEnd)
        else if !ValidUtf8(bytes[nameStart..nameStart + nameLen]) then Err(NameNotUtf8)
        else
          Ok((Listed(bytes[nameStart..nameStart + nameLen], external, crc, size, offset),
              nameStart + nameLen + extraLen + commentLen))
  }

  ghost function ListSpec(bytes: seq<byte>): Result<seq<Listed>, ZipError> {
    if |bytes| < END_RECORD_LEN then Err(TooShort)
    else
      var end := |bytes| - END_RECORD_LEN;
      var signature :- GetU32(bytes, end);
      if signature != END_SIGNATURE then Err(NoEndRecord)
      else
        var count :- GetU16(bytes, end + 10);
        var at :- GetU32(bytes, end + 16);
        ListFrom(bytes, at, count)
  }

  method ListEntry(bytes: seq<byte>, at: nat) returns (r: Result<(Listed, nat), ZipError>)
    ensures r == ListOne(bytes, at)
  {
    hide GetU16, GetU32, ValidUtf8;
    var signature :- GetU32(bytes, at);
    if signature != CENTRAL_SIGNATURE {
      return Err(NoCentralHeader);
    }
    var compression :- GetU16(bytes, at + 10);
    if compression != 0 {
      return Err(CompressedEntry);
    }
    var crc :- GetU32(bytes, at + 16);
    var size :- GetU32(bytes, at + 24);
    var nameLen :- GetU16(bytes, at + 28);
    var extraLen :- GetU16(bytes, at + 30);
    var commentLen :- GetU16(bytes, at + 32);
    var external :- GetU32(bytes, at + 38);
    var offset :- GetU32(bytes, at + 42);
    var nameStart := at + CENTRAL_HEADER_LEN;
    if nameStart + nameLen > |bytes| {
      return Err(NamePastEnd);
    }
    var name := bytes[nameStart..nameStart + nameLen];
    if !ValidUtf8(name) {
      return Err(NameNotUtf8);
    }
    r := Ok((Listed(name, external, crc, size, offset), nameStart + nameLen + extraLen + commentLen));
  }

  method List(bytes: seq<byte>) returns (r: Result<seq<Listed>, ZipError>)
    ensures r == ListSpec(bytes)
  {
    hide ListOne, GetU16, GetU32;
    if |bytes| < END_RECORD_LEN {
      return Err(TooShort);
    }
    var end := |bytes| - END_RECORD_LEN;
    var signature :- GetU32(bytes, end);
    if signature != END_SIGNATURE {
      return Err(NoEndRecord);
    }
    var count :- GetU16(bytes, end + 10);
    var at :- GetU32(bytes, end + 16);
    r := ListDirectory(bytes, at, count);
  }

  method ListDirectory(bytes: seq<byte>, start: nat, count: nat) returns (r: Result<seq<Listed>, ZipError>)
    ensures r == ListFrom(bytes, start, count)
  {
    hide ListOne;
    var at := start;
    var listed: seq<Listed> := [];
    ghost var goal := ListFrom(bytes, at, count);
    PrependNothing(goal);
    for i := 0 to count
      invariant goal == Prepend(listed, ListFrom(bytes, at, count - i))
    {
      var entry :- ListEntry(bytes, at);
      PrependTwice(listed, [entry.0], ListFrom(bytes, entry.1, count - i - 1));
      listed := listed + [entry.0];
      at := entry.1;
    }
    assert listed + [] == listed;
    r := Ok(listed);
  }

  ghost function DataSpec(bytes: seq<byte>, entry: Listed): Result<seq<byte>, ZipError> {
    var signature :- GetU32(bytes, entry.offset);
    if signature != LOCAL_SIGNATURE then Err(NoLocalHeader)
    else
      var nameLen :- GetU16(bytes, entry.offset + 26);
      var extraLen :- GetU16(bytes, entry.offset + 28);
      var start := entry.offset + LOCAL_HEADER_LEN + nameLen + extraLen;
      if start + entry.size > |bytes| then Err(DataPastEnd)
      else if CrcSpec(bytes[start..start + entry.size]) != entry.crc then Err(CrcMismatch)
      else Ok(bytes[start..start + entry.size])
  }

  method Data(bytes: seq<byte>, entry: Listed) returns (r: Result<seq<byte>, ZipError>)
    ensures r == DataSpec(bytes, entry)
  {
    hide CrcSpec, GetU16, GetU32;
    var at := entry.offset;
    var signature :- GetU32(bytes, at);
    if signature != LOCAL_SIGNATURE {
      return Err(NoLocalHeader);
    }
    var nameLen :- GetU16(bytes, at + 26);
    var extraLen :- GetU16(bytes, at + 28);
    var start := at + LOCAL_HEADER_LEN + nameLen + extraLen;
    if start + entry.size > |bytes| {
      return Err(DataPastEnd);
    }
    var data := bytes[start..start + entry.size];
    var crc := Crc32(data);
    if crc != entry.crc {
      return Err(CrcMismatch);
    }
    r := Ok(data);
  }
}
