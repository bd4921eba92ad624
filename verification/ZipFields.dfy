// The bytes of a written archive, field by field, at the offsets of APPNOTE 4.3.7, 4.3.12 and 4.3.16.

module ZipFields {
  import opened Basics
  import opened Utf8
  import opened Crc
  import opened Zip
  import opened ZipRoundTrip

  // ----- fields -----

  /** Two bytes at `p`, the low one first, are `v`. */
  ghost predicate Half(b: seq<byte>, p: nat, v: nat) {
    p + 2 <= |b| && b[p] as int + 0x100 * b[p + 1] as int == v
  }

  /** Four bytes. */
  ghost predicate Whole(b: seq<byte>, p: nat, v: nat) {
    p + 4 <= |b| &&
    b[p] as int + 0x100 * b[p + 1] as int + 0x1_0000 * b[p + 2] as int + 0x100_0000 * b[p + 3] as int == v
  }

  lemma HalfStands(b: seq<byte>, p: nat, v: nat)
    requires v < 0x1_0000 && At(b, p, U16(v))
    ensures Half(b, p, v)
  {
    AtIndex(b, p, U16(v), 0);
    AtIndex(b, p, U16(v), 1);
  }

  lemma WholeStands(b: seq<byte>, p: nat, v: nat)
    requires v < 0x1_0000_0000 && At(b, p, U32(v))
    ensures Whole(b, p, v)
  {
    hide At, U16;
    var low, high := v % 0x1_0000, v / 0x1_0000;
    AtSplits(b, p, U16(low), U16(high));
    HalfStands(b, p, low);
    HalfStands(b, p + 2, high);
  }

  lemma Field16(bytes: seq<byte>, p: nat, header: seq<byte>, k: nat, v: nat)
    requires v < 0x1_0000 && At(bytes, p, header) && At(header, k, U16(v))
    ensures Half(bytes, p + k, v)
  {
    hide At, Half, U16;
    FieldAt(bytes, p, header, k, U16(v));
    HalfStands(bytes, p + k, v);
  }

  lemma Field32(bytes: seq<byte>, p: nat, header: seq<byte>, k: nat, v: nat)
    requires v < 0x1_0000_0000 && At(bytes, p, header) && At(header, k, U32(v))
    ensures Whole(bytes, p + k, v)
  {
    hide At, Whole, U32;
    FieldAt(bytes, p, header, k, U32(v));
    WholeStands(bytes, p + k, v);
  }

  /** What the reader takes from such fields. */
  lemma FieldsRead(b: seq<byte>, p: nat, v: nat)
    ensures GetU16(b, p) == Ok(v) <==> Half(b, p, v)
    ensures GetU32(b, p) == Ok(v) <==> Whole(b, p, v)
  {
  }

  // ----- entries -----

  /** A directory's name ends in a slash, and it holds nothing. */
  function NameOf(e: Entry): seq<byte> {
    if e.kind == Directory && (e.name == [] || e.name[|e.name| - 1] != 0x2F) then e.name + [0x2F] else e.name
  }

  function DataOf(e: Entry): seq<byte> {
    if e.kind == Directory then [] else e.data
  }

  /** The modes 0o100755, 0o100644 and 0o040755 in the high half; a directory has its MS-DOS bit too. */
  function ModeOf(kind: Kind): nat {
    match kind
    case Executable => 0x81ED * 0x1_0000
    case File => 0x81A4 * 0x1_0000
    case Directory => 0x41ED * 0x1_0000 + 0x10
  }

  function Version(kind: Kind): nat {
    if kind == Directory then 20 else 10
  }

  lemma KindIs(kind: Kind)
    ensures ExternalAttributes(kind) == ModeOf(kind) < 0x1_0000_0000 && Needed(kind) == Version(kind)
  {
  }

  lemma EntryIs(e: Entry)
    ensures Named(e) == NameOf(e) && Stored(e) == DataOf(e)
  {
  }

  // ----- records -----

  /** A local header. */
  ghost predicate LocalIs(b: seq<byte>, p: nat, kind: Kind, crc: nat, size: nat, nameLen: nat) {
    && Whole(b, p, 0x0403_4B50) && Half(b, p + 4, Version(kind)) && Half(b, p + 6, 0) && Half(b, p + 8, 0)
    && Half(b, p + 10, 0) && Half(b, p + 12, 0x21) && Whole(b, p + 14, crc) && Whole(b, p + 18, size)
    && Whole(b, p + 22, size) && Half(b, p + 26, nameLen) && Half(b, p + 28, 0)
  }

  lemma LocalIsFront(w: Written)
    requires WrittenFits(w)
    ensures At(LocalHeader(w), 0, U32(LOCAL_SIGNATURE))
    ensures At(LocalHeader(w), 4, U16(Needed(w.kind)))
    ensures At(LocalHeader(w), 6, U16(0))
    ensures At(LocalHeader(w), 8, U16(0))
    ensures At(LocalHeader(w), 10, U16(DOS_TIME))
  {
    hide U16, U32;
  }

  lemma LocalIsBack(w: Written)
    requires WrittenFits(w)
    ensures At(LocalHeader(w), 12, U16(DOS_DATE))
    ensures At(LocalHeader(w), 14, U32(w.crc))
    ensures At(LocalHeader(w), 18, U32(w.size))
    ensures At(LocalHeader(w), 22, U32(w.size))
    ensures At(LocalHeader(w), 26, U16(|w.name|))
    ensures At(LocalHeader(w), 28, U16(0))
  {
    hide U16, U32;
  }

  lemma LocalIsStands(w: Written, b: seq<byte>, p: nat)
    requires WrittenFits(w) && At(b, p, LocalHeader(w))
    ensures LocalIs(b, p, w.kind, w.crc, w.size, |w.name|)
  {
    hide At, U16, U32, Half, Whole, LocalHeader;
    KindIs(w.kind);
    LocalIsFront(w);
    LocalIsBack(w);
    Field32(b, p, LocalHeader(w), 0, LOCAL_SIGNATURE);
    Field16(b, p, LocalHeader(w), 4, Needed(w.kind));
    Field16(b, p, LocalHeader(w), 6, 0);
    Field16(b, p, LocalHeader(w), 8, 0);
    Field16(b, p, LocalHeader(w), 10, DOS_TIME);
    Field16(b, p, LocalHeader(w), 12, DOS_DATE);
    Field32(b, p, LocalHeader(w), 14, w.crc);
    Field32(b, p, LocalHeader(w), 18, w.size);
    Field32(b, p, LocalHeader(w), 22, w.size);
    Field16(b, p, LocalHeader(w), 26, |w.name|);
    Field16(b, p, LocalHeader(w), 28, 0);
  }

  /** A directory header. */
  ghost predicate CentralIs(b: seq<byte>, p: nat, kind: Kind, crc: nat, size: nat, nameLen: nat, offset: nat) {
    && Whole(b, p, 0x0201_4B50) && Half(b, p + 4, 0x0314) && Half(b, p + 6, Version(kind)) && Half(b, p + 8, 0)
    && Half(b, p + 10, 0) && Half(b, p + 12, 0) && Half(b, p + 14, 0x21) && Whole(b, p + 16, crc)
    && Whole(b, p + 20, size) && Whole(b, p + 24, size) && Half(b, p + 28, nameLen) && Half(b, p + 30, 0)
    && Half(b, p + 32, 0) && Half(b, p + 34, 0) && Half(b, p + 36, 0) && Whole(b, p + 38, ModeOf(kind))
    && Whole(b, p + 42, offset)
  }

  lemma CentralIsFront(w: Written)
    requires WrittenFits(w)
    ensures At(CentralHeader(w), 0, U32(CENTRAL_SIGNATURE))
    ensures At(CentralHeader(w), 4, U16(MADE_BY))
    ensures At(CentralHeader(w), 6, U16(Needed(w.kind)))
    ensures At(CentralHeader(w), 8, U16(0))
    ensures At(CentralHeader(w), 10, U16(0))
    ensures At(CentralHeader(w), 12, U16(DOS_TIME))
    ensures At(CentralHeader(w), 14, U16(DOS_DATE))
    ensures At(CentralHeader(w), 16, U32(w.crc))
  {
    hide U16, U32;
  }

  lemma CentralIsBack(w: Written)
    requires WrittenFits(w)
    ensures At(CentralHeader(w), 20, U32(w.size))
    ensures At(CentralHeader(w), 24, U32(w.size))
    ensures At(CentralHeader(w), 28, U16(|w.name|))
    ensures At(CentralHeader(w), 30, U16(0))
    ensures At(CentralHeader(w), 32, U16(0))
    ensures At(CentralHeader(w), 34, U16(0))
    ensures At(CentralHeader(w), 36, U16(0))
    ensures At(CentralHeader(w), 38, U32(ExternalAttributes(w.kind)))
    ensures At(CentralHeader(w), 42, U32(w.offset))
  {
    hide U16, U32;
  }

  lemma CentralIsStands(w: Written, b: seq<byte>, p: nat)
    requires WrittenFits(w) && At(b, p, CentralHeader(w))
    ensures CentralIs(b, p, w.kind, w.crc, w.size, |w.name|, w.offset)
  {
    hide At, U16, U32, Half, Whole, CentralHeader, ModeOf, ExternalAttributes;
    KindIs(w.kind);
    CentralIsFront(w);
    CentralIsBack(w);
    Field32(b, p, CentralHeader(w), 0, CENTRAL_SIGNATURE);
    Field16(b, p, CentralHeader(w), 4, MADE_BY);
    Field16(b, p, CentralHeader(w), 6, Needed(w.kind));
    Field16(b, p, CentralHeader(w), 8, 0);
    Field16(b, p, CentralHeader(w), 10, 0);
    Field16(b, p, CentralHeader(w), 12, DOS_TIME);
    Field16(b, p, CentralHeader(w), 14, DOS_DATE);
    Field32(b, p, CentralHeader(w), 16, w.crc);
    Field32(b, p, CentralHeader(w), 20, w.size);
    Field32(b, p, CentralHeader(w), 24, w.size);
    Field16(b, p, CentralHeader(w), 28, |w.name|);
    Field16(b, p, CentralHeader(w), 30, 0);
    Field16(b, p, CentralHeader(w), 32, 0);
    Field16(b, p, CentralHeader(w), 34, 0);
    Field16(b, p, CentralHeader(w), 36, 0);
    Field32(b, p, CentralHeader(w), 38, ExternalAttributes(w.kind));
    Field32(b, p, CentralHeader(w), 42, w.offset);
  }

  /** The end record. */
  ghost predicate EndIs(b: seq<byte>, p: nat, count: nat, length: nat, start: nat) {
    && Whole(b, p, 0x0605_4B50) && Half(b, p + 4, 0) && Half(b, p + 6, 0) && Half(b, p + 8, count)
    && Half(b, p + 10, count) && Whole(b, p + 12, length) && Whole(b, p + 16, start) && Half(b, p + 20, 0)
  }

  lemma EndIsFront(count: nat, length: nat, start: nat)
    requires Fits16(count) && Fits32(length) && Fits32(start)
    ensures At(EndRecord(count, length, start), 0, U32(END_SIGNATURE))
    ensures At(EndRecord(count, length, start), 4, U16(0))
    ensures At(EndRecord(count, length, start), 6, U16(0))
    ensures At(EndRecord(count, length, start), 8, U16(count))
  {
    hide U16, U32;
  }

  lemma EndIsBack(count: nat, length: nat, start: nat)
    requires Fits16(count) && Fits32(length) && Fits32(start)
    ensures At(EndRecord(count, length, start), 10, U16(count))
    ensures At(EndRecord(count, length, start), 12, U32(length))
    ensures At(EndRecord(count, length, start), 16, U32(start))
    ensures At(EndRecord(count, length, start), 20, U16(0))
  {
    hide U16, U32;
  }

  lemma EndIsStands(count: nat, length: nat, start: nat, b: seq<byte>, p: nat)
    requires Fits16(count) && Fits32(length) && Fits32(start) && At(b, p, EndRecord(count, length, start))
    ensures EndIs(b, p, count, length, start)
  {
    hide At, U16, U32, Half, Whole, EndRecord;
    EndIsFront(count, length, start);
    EndIsBack(count, length, start);
    Field32(b, p, EndRecord(count, length, start), 0, END_SIGNATURE);
    Field16(b, p, EndRecord(count, length, start), 4, 0);
    Field16(b, p, EndRecord(count, length, start), 6, 0);
    Field16(b, p, EndRecord(count, length, start), 8, count);
    Field16(b, p, EndRecord(count, length, start), 10, count);
    Field32(b, p, EndRecord(count, length, start), 12, length);
    Field32(b, p, EndRecord(count, length, start), 16, start);
    Field16(b, p, EndRecord(count, length, start), 20, 0);
  }

  // ----- archives -----

  ghost predicate NamesAreText(entries: seq<Entry>) {
    forall i :: 0 <= i < |entries| ==> ValidUtf8(entries[i].name)
  }

  /** A written archive in its three parts, and the plan behind it. */
  lemma ArchiveParts(entries: seq<Entry>, bytes: seq<byte>) returns (plan: seq<Written>, start: nat, length: nat)
    requires WriteSpec(entries) == Ok(bytes) && NamesAreText(entries)
    ensures Plan(entries, 0) == Ok(plan) && |plan| == |entries| && PlanFits(plan)
    ensures At(bytes, 0, Locals(plan, entries)) && At(bytes, start, Central(plan))
    ensures Fits16(|plan|) && Fits32(length) && Fits32(start) && |bytes| == start + length + 22
    ensures At(bytes, |bytes| - 22, EndRecord(|plan|, length, start))
    ensures ListSpec(bytes) == Ok(Listing(plan)) && length == DirectoryLength(Listing(plan))
  {
    hide At, Locals, Central, EndRecord, GetU16, GetU32, ListFrom, ValidUtf8, Plan, WrittenFits;
    plan := Plan(entries, 0).value;
    var locals, central := Locals(plan, entries), Central(plan);
    start, length := |locals|, |central|;
    var end := EndRecord(|plan|, |central|, |locals|);
    Layout(locals, central, end, bytes);
    EndFields(|plan|, |central|, |locals|, bytes, |bytes| - |end|);
    PlanNames(entries, plan, 0);
    DirectoryFound(plan, bytes, |locals|);
    CentralLength(plan);
  }

  /** Every local record: its fields, then the name and the data. */
  lemma LocalExact(entries: seq<Entry>, bytes: seq<byte>, i: nat)
    requires WriteSpec(entries) == Ok(bytes) && NamesAreText(entries) && i < |entries|
    ensures ListSpec(bytes).Ok? && |ListSpec(bytes).value| == |entries|
    ensures var e, p := entries[i], ListSpec(bytes).value[i].offset;
      var name, data := NameOf(e), DataOf(e);
      LocalIs(bytes, p, e.kind, CrcSpec(data), |data|, |name|) && At(bytes, p + 30, name + data)
  {
    hide At, Locals, Central, LocalHeader, LocalIs, WriteSpec, ListSpec, Named, Stored, CrcSpec, Plan, NameOf, DataOf,
      ExternalAttributes, DirectoryLength;
    var plan, start, length := ArchiveParts(entries, bytes);
    LocalsStand(entries, plan, bytes, 0, i);
    EntryIs(entries[i]);
    AtSplits(bytes, plan[i].offset, LocalHeader(plan[i]), plan[i].name + Stored(entries[i]));
    LocalIsStands(plan[i], bytes, plan[i].offset);
  }

  lemma {:induction false} CentralsStand(plan: seq<Written>, bytes: seq<byte>, p: nat, i: nat)
    requires PlanFits(plan) && At(bytes, p, Central(plan)) && i < |plan|
    ensures At(bytes, p + DirectoryLength(Listing(plan)[..i]), CentralRecord(plan[i]))
    decreases i
  {
    hide At, CentralRecord, WrittenFits, Listing;
    AtSplits(bytes, p, CentralRecord(plan[0]), Central(plan[1..]));
    if i > 0 {
      CentralsStand(plan[1..], bytes, p + |CentralRecord(plan[0])|, i - 1);
      ListingTurn(plan, i);
    } else {
      assert Listing(plan)[..0] == [];
    }
  }

  lemma ListingTurn(plan: seq<Written>, i: nat)
    requires 0 < i <= |plan|
    ensures DirectoryLength(Listing(plan)[..i]) == 46 + |plan[0].name| + DirectoryLength(Listing(plan[1..])[..i - 1])
  {
    assert Listing(plan)[..i][1..] == Listing(plan[1..])[..i - 1];
  }

  /** Every directory record: its fields, then the name, one behind the other from where the end record says. */
  lemma CentralExact(entries: seq<Entry>, bytes: seq<byte>, i: nat) returns (start: nat)
    requires WriteSpec(entries) == Ok(bytes) && NamesAreText(entries) && i < |entries|
    ensures ListSpec(bytes).Ok? && |ListSpec(bytes).value| == |entries|
    ensures |bytes| >= 22 && Whole(bytes, |bytes| - 6, start)
    ensures var e, l := entries[i], ListSpec(bytes).value[i];
      var p, name, data := start + DirectoryLength(ListSpec(bytes).value[..i]), NameOf(e), DataOf(e);
      CentralIs(bytes, p, e.kind, CrcSpec(data), |data|, |name|, l.offset) && At(bytes, p + 46, name)
  {
    hide At, Locals, Central, CentralHeader, CentralIs, EndRecord, Half, Whole, WriteSpec, ListSpec, Named, Stored,
      CrcSpec, Plan, ExternalAttributes, DirectoryLength, NameOf, DataOf;
    var plan, length;
    plan, start, length := ArchiveParts(entries, bytes);
    EndIsStands(|plan|, length, start, bytes, |bytes| - 22);
    LocalsStand(entries, plan, bytes, 0, i);
    EntryIs(entries[i]);
    CentralsStand(plan, bytes, start, i);
    var p := start + DirectoryLength(Listing(plan)[..i]);
    AtSplits(bytes, p, CentralHeader(plan[i]), plan[i].name);
    CentralIsStands(plan[i], bytes, p);
  }

  /** The end record, behind the directory. */
  lemma EndExact(entries: seq<Entry>, bytes: seq<byte>) returns (start: nat, length: nat)
    requires WriteSpec(entries) == Ok(bytes) && NamesAreText(entries)
    ensures ListSpec(bytes).Ok? && length == DirectoryLength(ListSpec(bytes).value)
    ensures |bytes| == start + length + 22 && EndIs(bytes, |bytes| - 22, |entries|, length, start)
  {
    hide At, Locals, Central, EndRecord, EndIs, WriteSpec, ListSpec, Plan, DirectoryLength;
    var plan;
    plan, start, length := ArchiveParts(entries, bytes);
    EndIsStands(|plan|, length, start, bytes, |bytes| - 22);
  }

  // ----- what the reader looks at -----

  /** Two or four bytes as a number. */
  function HalfAt(b: seq<byte>, p: nat): nat
    requires p + 2 <= |b|
  {
    b[p] as int + 0x100 * b[p + 1] as int
  }

  function WholeAt(b: seq<byte>, p: nat): nat
    requires p + 4 <= |b|
  {
    HalfAt(b, p) + 0x1_0000 * HalfAt(b, p + 2)
  }

  lemma ReadIs(b: seq<byte>, p: nat)
    ensures GetU16(b, p) == if p + 2 <= |b| then Ok(HalfAt(b, p)) else Err(InsideField)
    ensures GetU32(b, p) == if p + 4 <= |b| then Ok(WholeAt(b, p)) else Err(InsideField)
  {
  }

  /** A directory record is read, or refused for the first thing that is wrong with it. */
  lemma RecordReadExact(b: seq<byte>, p: nat)
    ensures ListOne(b, p) ==
      if p + 4 > |b| then Err(InsideField)
      else if WholeAt(b, p) != 0x0201_4B50 then Err(NoCentralHeader)
      else if p + 12 > |b| then Err(InsideField)
      else if HalfAt(b, p + 10) != 0 then Err(CompressedEntry)
      else if p + 46 > |b| then Err(InsideField)
      else
        var end := p + 46 + HalfAt(b, p + 28);
        if end > |b| then Err(NamePastEnd)
        else if !ValidUtf8(b[p + 46..end]) then Err(NameNotUtf8)
        else
          Ok((Listed(b[p + 46..end], WholeAt(b, p + 38), WholeAt(b, p + 16), WholeAt(b, p + 24), WholeAt(b, p + 42)),
              end + HalfAt(b, p + 30) + HalfAt(b, p + 32)))
  {
    hide GetU16, GetU32, HalfAt, WholeAt, ValidUtf8;
    ReadIs(b, p);
    ReadIs(b, p + 10);
    ReadIs(b, p + 16);
    ReadIs(b, p + 24);
    ReadIs(b, p + 28);
    ReadIs(b, p + 30);
    ReadIs(b, p + 32);
    ReadIs(b, p + 38);
    ReadIs(b, p + 42);
  }

  /** The end record is the last 22 bytes, and gives the count and the start of the directory. */
  lemma ListReadExact(b: seq<byte>)
    ensures ListSpec(b) ==
      if |b| < 22 then Err(TooShort)
      else if WholeAt(b, |b| - 22) != 0x0605_4B50 then Err(NoEndRecord)
      else ListFrom(b, WholeAt(b, |b| - 6), HalfAt(b, |b| - 12))
  {
    hide GetU16, GetU32, HalfAt, WholeAt, ListFrom;
    if |b| >= 22 {
      ReadIs(b, |b| - 22);
      ReadIs(b, |b| - 12);
      ReadIs(b, |b| - 6);
    }
  }

  /** An entry's data is read through its local record, or refused for the first thing that is wrong. */
  lemma DataReadExact(b: seq<byte>, entry: Listed)
    ensures var p := entry.offset;
      DataSpec(b, entry) ==
        if p + 4 > |b| then Err(InsideField)
        else if WholeAt(b, p) != 0x0403_4B50 then Err(NoLocalHeader)
        else if p + 30 > |b| then Err(InsideField)
        else
          var start := p + 30 + HalfAt(b, p + 26) + HalfAt(b, p + 28);
          if start + entry.size > |b| then Err(DataPastEnd)
          else if CrcSpec(b[start..start + entry.size]) != entry.crc then Err(CrcMismatch)
          else Ok(b[start..start + entry.size])
  {
    hide GetU16, GetU32, HalfAt, WholeAt, CrcSpec;
    ReadIs(b, entry.offset);
    ReadIs(b, entry.offset + 26);
    ReadIs(b, entry.offset + 28);
  }

  // ----- the limits -----

  /** What the records of the entries take, all in all. */
  ghost function RecordsLength(entries: seq<Entry>): nat {
    if entries == [] then 0
    else 76 + 2 * |NameOf(entries[0])| + |DataOf(entries[0])| + RecordsLength(entries[1..])
  }

  lemma {:induction false} LengthsAdd(entries: seq<Entry>)
    ensures RecordsLength(entries) == LocalsLength(entries) + CentralsLength(entries)
  {
    if entries != [] {
      EntryIs(entries[0]);
      LengthsAdd(entries[1..]);
    }
  }

  lemma NamesExact(entries: seq<Entry>)
    ensures NamesFit(entries) <==>
      forall i :: 0 <= i < |entries| ==>
        var name := NameOf(entries[i]);
        |name| < 65536 && (name == [] || name[0] != 0x2F) && forall c :: c in name ==> c != 0x5C
  {
    hide NameOf, Named;
    forall i: nat | i < |entries|
      ensures var name := NameOf(entries[i]);
        Relative(Named(entries[i])) && Fits16(|Named(entries[i])|) <==>
        |name| < 65536 && (name == [] || name[0] != 0x2F) && forall c :: c in name ==> c != 0x5C
    {
      EntryIs(entries[i]);
    }
  }

  /** Entries are written exactly when there are fewer than 2^16 of them, their names are shorter than that, start with
      no slash and hold no backslash, and the archive stays below 2^32 bytes. */
  lemma LimitsExact(entries: seq<Entry>)
    ensures WriteSpec(entries).Ok? <==>
      && |entries| < 65536 && RecordsLength(entries) + 22 < 4294967296
      && forall i :: 0 <= i < |entries| ==>
        var name := NameOf(entries[i]);
        |name| < 65536 && (name == [] || name[0] != 0x2F) && forall c :: c in name ==> c != 0x5C
  {
    hide WriteSpec, NamesFit, LocalsLength, CentralsLength, RecordsLength, NameOf;
    WriteExact(entries);
    NamesExact(entries);
    LengthsAdd(entries);
  }

  lemma {:induction false} PlanErrors(entries: seq<Entry>, p: nat)
    ensures Plan(entries, p).Err? ==> Plan(entries, p).error in {NotRelative, TooLarge}
    ensures Plan(entries, p) == Err(NotRelative) ==> exists i :: 0 <= i < |entries| && !Relative(Named(entries[i]))
    decreases |entries|
  {
    hide Named, Stored, Relative, CrcSpec;
    if entries != [] {
      PlanErrors(entries[1..], p + LOCAL_HEADER_LEN + |Named(entries[0])| + |Stored(entries[0])|);
    }
  }

  /** A refusal to write names a name that is not relative, or a limit. */
  lemma WriteErrors(entries: seq<Entry>)
    ensures WriteSpec(entries).Err? ==> WriteSpec(entries).error in {NotRelative, TooLarge}
    ensures WriteSpec(entries) == Err(NotRelative) ==>
      exists i :: 0 <= i < |entries| && (0x5C in NameOf(entries[i]) || StartsWithSlash(NameOf(entries[i])))
    ensures entries != [] && 0x5C in NameOf(entries[0]) ==> WriteSpec(entries) == Err(NotRelative)
  {
    hide Locals, Central, EndRecord, Named, NameOf, Stored, CrcSpec;
    PlanErrors(entries, 0);
    if entries != [] {
      EntryIs(entries[0]);
    }
    if WriteSpec(entries) == Err(NotRelative) {
      var i :| 0 <= i < |entries| && !Relative(Named(entries[i]));
      EntryIs(entries[i]);
    }
  }

  predicate StartsWithSlash(name: seq<byte>) {
    name != [] && name[0] == 0x2F
  }
}
