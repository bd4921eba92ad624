// What the zip writer and reader promise together: everything written is listed and read back, and
// short damage to an entry's bytes never goes unnoticed.

module ZipRoundTrip {
  import opened Basics
  import opened Utf8
  import opened Crc
  import opened Zip

  /** The listing entry of a directory record. */
  ghost function ListingOf(w: Written): Listed {
    Listed(w.name, ExternalAttributes(w.kind), w.crc, w.size, w.offset)
  }

  ghost function Listing(plan: seq<Written>): (l: seq<Listed>)
    ensures |l| == |plan| && forall i :: 0 <= i < |plan| ==> l[i] == ListingOf(plan[i])
  {
    if plan == [] then [] else [ListingOf(plan[0])] + Listing(plan[1..])
  }

  // ----- the directory -----

  lemma CentralFound(w: Written, bytes: seq<byte>, p: nat)
    requires WrittenFits(w) && ValidUtf8(w.name)
    requires At(bytes, p, CentralRecord(w))
    ensures ListOne(bytes, p) == Ok((ListingOf(w), p + |CentralRecord(w)|))
  {
    hide CentralHeader, At, GetU16, GetU32, ValidUtf8;
    AtSplits(bytes, p, CentralHeader(w), w.name);
    CentralFields(w, bytes, p);
    NameStands(bytes, p + CENTRAL_HEADER_LEN, w.name);
  }

  lemma NameStands(bytes: seq<byte>, p: nat, name: seq<byte>)
    requires At(bytes, p, name)
    ensures p + |name| <= |bytes| && bytes[p..p + |name|] == name
  {
  }

  ghost predicate NamesValid(plan: seq<Written>) {
    forall i :: 0 <= i < |plan| ==> ValidUtf8(plan[i].name)
  }

  lemma {:induction false} DirectoryFound(plan: seq<Written>, bytes: seq<byte>, p: nat)
    requires PlanFits(plan) && NamesValid(plan)
    requires At(bytes, p, Central(plan))
    ensures ListFrom(bytes, p, |plan|) == Ok(Listing(plan))
    decreases |plan|
  {
    hide At, CentralRecord, ListOne, ValidUtf8, WrittenFits;
    if plan != [] {
      var head, rest := CentralRecord(plan[0]), Central(plan[1..]);
      AtSplits(bytes, p, head, rest);
      CentralFound(plan[0], bytes, p);
      DirectoryFound(plan[1..], bytes, p + |head|);
    }
  }

  // ----- the local records -----

  /** Records stand where the plan says, one right after the other. */
  lemma {:induction false} LocalsStand(entries: seq<Entry>, plan: seq<Written>, bytes: seq<byte>, p: nat, i: nat)
    requires Plan(entries, p) == Ok(plan) && i < |plan|
    requires At(bytes, p, Locals(plan, entries))
    ensures |plan| == |entries| && WrittenFits(plan[i])
    ensures plan[i] ==
            Written(Named(entries[i]), entries[i].kind, CrcSpec(Stored(entries[i])), |Stored(entries[i])|,
                    plan[i].offset)
    ensures At(bytes, plan[i].offset, LocalRecord(plan[i], Stored(entries[i])))
    ensures plan[i].offset + |LocalRecord(plan[i], Stored(entries[i]))| ==
            if i + 1 < |plan| then plan[i + 1].offset else p + |Locals(plan, entries)|
    decreases |entries|
  {
    hide At, LocalRecord, CrcSpec, Named, Stored, Relative;
    PlanTurn(entries, plan, p);
    var head, rest := LocalRecord(plan[0], Stored(entries[0])), Locals(plan[1..], entries[1..]);
    AtSplits(bytes, p, head, rest);
    if i > 0 {
      LocalsStand(entries[1..], plan[1..], bytes, p + |head|, i - 1);
    } else if |plan| > 1 {
      PlanTurn(entries[1..], plan[1..], p + |head|);
    }
  }

  lemma PlanTurn(entries: seq<Entry>, plan: seq<Written>, p: nat)
    requires Plan(entries, p) == Ok(plan) && |plan| > 0
    ensures |plan| == |entries| && PlanFits(plan)
    ensures plan[0] == Written(Named(entries[0]), entries[0].kind, CrcSpec(Stored(entries[0])), |Stored(entries[0])|, p)
    ensures Plan(entries[1..], p + |LocalRecord(plan[0], Stored(entries[0]))|) == Ok(plan[1..])
  {
    hide CrcSpec, Named, Stored, Relative, LocalHeader;
    var rest := Plan(entries[1..], p + LOCAL_HEADER_LEN + |Named(entries[0])| + |Stored(entries[0])|);
    assert plan == [plan[0]] + plan[1..];
    assert plan[1..] == rest.value;
  }

  lemma DataFound(w: Written, data: seq<byte>, bytes: seq<byte>)
    requires WrittenFits(w) && w.crc == CrcSpec(data) && w.size == |data|
    requires At(bytes, w.offset, LocalRecord(w, data))
    ensures DataSpec(bytes, ListingOf(w)) == Ok(data)
  {
    hide At, LocalHeader, GetU16, GetU32, CrcSpec;
    AtSplits(bytes, w.offset, LocalHeader(w), w.name + data);
    AtSplits(bytes, w.offset + LOCAL_HEADER_LEN, w.name, data);
    LocalFields(w, bytes, w.offset);
    NameStands(bytes, w.offset + LOCAL_HEADER_LEN + |w.name|, data);
  }

  // ----- the archive -----

  lemma NamedIsValid(e: Entry)
    requires ValidUtf8(e.name)
    ensures ValidUtf8(Named(e))
  {
    ValidAscii(SLASH);
    ValidConcat(e.name, [SLASH]);
  }

  lemma {:induction false} PlanNames(entries: seq<Entry>, plan: seq<Written>, p: nat)
    requires Plan(entries, p) == Ok(plan)
    requires forall i :: 0 <= i < |entries| ==> ValidUtf8(entries[i].name)
    ensures NamesValid(plan)
    decreases |entries|
  {
    hide LocalRecord, ValidUtf8, Stored, CrcSpec;
    if |plan| > 0 {
      PlanTurn(entries, plan, p);
      PlanNames(entries[1..], plan[1..], p + |LocalRecord(plan[0], Stored(entries[0]))|);
      NamedIsValid(entries[0]);
    }
  }

  lemma Layout(locals: seq<byte>, central: seq<byte>, end: seq<byte>, bytes: seq<byte>)
    requires bytes == locals + (central + end)
    ensures At(bytes, 0, locals) && At(bytes, |locals|, central) && At(bytes, |bytes| - |end|, end)
  {
    assert bytes[0..|locals|] == locals;
    assert bytes[|locals|..|locals| + |central|] == central;
    assert bytes[|bytes| - |end|..|bytes|] == end;
  }

  /** The listing of a written archive is its entries, in order, and every listed entry gives its bytes back. */
  lemma WriteThenRead(entries: seq<Entry>, bytes: seq<byte>)
    requires WriteSpec(entries) == Ok(bytes)
    requires forall i :: 0 <= i < |entries| ==> ValidUtf8(entries[i].name)
    ensures ListSpec(bytes).Ok?
    ensures var listed := ListSpec(bytes).value;
      && |listed| == |entries|
      && forall i :: 0 <= i < |entries| ==>
          && listed[i].name == Named(entries[i])
          && listed[i].external == ExternalAttributes(entries[i].kind)
          && listed[i].crc == CrcSpec(Stored(entries[i]))
          && listed[i].size == |Stored(entries[i])|
          && DataSpec(bytes, listed[i]) == Ok(Stored(entries[i]))
  {
    hide At, Locals, Central, EndRecord, GetU16, GetU32, ListFrom, DataSpec, CrcSpec, Named, Stored, ValidUtf8,
      LocalRecord,
      ExternalAttributes, Plan, WrittenFits;
    var plan := Plan(entries, 0).value;
    var locals, central := Locals(plan, entries), Central(plan);
    var end := EndRecord(|plan|, |central|, |locals|);
    Layout(locals, central, end, bytes);
    EndFields(|plan|, |central|, |locals|, bytes, |bytes| - |end|);
    PlanNames(entries, plan, 0);
    DirectoryFound(plan, bytes, |locals|);
    forall i: nat | i < |entries|
      ensures plan[i] ==
            Written(Named(entries[i]), entries[i].kind, CrcSpec(Stored(entries[i])), |Stored(entries[i])|,
                    plan[i].offset)
      ensures DataSpec(bytes, ListingOf(plan[i])) == Ok(Stored(entries[i]))
    {
      LocalsStand(entries, plan, bytes, 0, i);
      DataFound(plan[i], Stored(entries[i]), bytes);
    }
  }

  /** The local records tile the front of the archive: each listed offset is where the record before it ends. */
  lemma OffsetsTile(entries: seq<Entry>, bytes: seq<byte>, i: nat)
    requires WriteSpec(entries) == Ok(bytes) && i < |entries|
    requires forall j :: 0 <= j < |entries| ==> ValidUtf8(entries[j].name)
    ensures ListSpec(bytes).Ok? && |ListSpec(bytes).value| == |entries|
    ensures var listed := ListSpec(bytes).value;
      var recordEnd := listed[i].offset + LOCAL_HEADER_LEN + |listed[i].name| + listed[i].size;
      && (i == 0 ==> listed[i].offset == 0)
      && (i + 1 < |entries| ==> listed[i + 1].offset == recordEnd)
      && (i + 1 == |entries| ==>
            GetU32(bytes, |bytes| - END_RECORD_LEN + 16) == Ok(recordEnd) && recordEnd + END_RECORD_LEN <= |bytes|)
  {
    hide At, Locals, Central, EndRecord, GetU16, GetU32, ListFrom, DataSpec, CrcSpec, Named, Stored, ValidUtf8,
      ExternalAttributes, Plan, WrittenFits, LocalHeader;
    var plan := Plan(entries, 0).value;
    var locals, central := Locals(plan, entries), Central(plan);
    var end := EndRecord(|plan|, |central|, |locals|);
    Layout(locals, central, end, bytes);
    EndFields(|plan|, |central|, |locals|, bytes, |bytes| - |end|);
    PlanNames(entries, plan, 0);
    DirectoryFound(plan, bytes, |locals|);
    LocalsStand(entries, plan, bytes, 0, i);
    PlanTurn(entries, plan, 0);
  }

  // ----- the classic limits -----

  ghost function LocalsLength(entries: seq<Entry>): nat {
    if entries == [] then 0
    else LOCAL_HEADER_LEN + |Named(entries[0])| + |Stored(entries[0])| + LocalsLength(entries[1..])
  }

  ghost function CentralsLength(entries: seq<Entry>): nat {
    if entries == [] then 0 else CENTRAL_HEADER_LEN + |Named(entries[0])| + CentralsLength(entries[1..])
  }

  ghost predicate NamesFit(entries: seq<Entry>) {
    forall i :: 0 <= i < |entries| ==> Relative(Named(entries[i])) && Fits16(|Named(entries[i])|)
  }

  lemma {:induction false} PlanSucceeds(entries: seq<Entry>, p: nat)
    requires NamesFit(entries) && Fits32(p + LocalsLength(entries))
    ensures Plan(entries, p).Ok?
    decreases |entries|
  {
    hide CrcSpec, Named, Stored, Relative;
    if entries != [] {
      PlanSucceeds(entries[1..], p + LOCAL_HEADER_LEN + |Named(entries[0])| + |Stored(entries[0])|);
    }
  }

  lemma {:induction false} PlanLengths(entries: seq<Entry>, plan: seq<Written>, p: nat)
    requires Plan(entries, p) == Ok(plan)
    ensures |plan| == |entries| && PlanFits(plan)
    ensures NamesFit(entries)
    ensures |Locals(plan, entries)| == LocalsLength(entries) && |Central(plan)| == CentralsLength(entries)
    decreases |entries|
  {
    hide CrcSpec, Named, Stored, Relative, LocalHeader, CentralHeader;
    if |plan| > 0 {
      PlanTurn(entries, plan, p);
      PlanLengths(entries[1..], plan[1..], p + |LocalRecord(plan[0], Stored(entries[0]))|);
    }
  }

  lemma PlannedFits(entries: seq<Entry>)
    ensures Plan(entries, 0).Err? ==> WriteSpec(entries).Err?
    ensures Plan(entries, 0).Ok? ==>
      var plan := Plan(entries, 0).value;
      WriteSpec(entries).Ok? <==>
        Fits16(|plan|) && Fits32(|Locals(plan, entries)| + |Central(plan)| + END_RECORD_LEN)
  {
    hide Plan, Locals, Central, EndRecord, WrittenFits;
  }

  /** Which entry lists can be written: relative names, and every count and length within the classic limits. */
  lemma WriteExact(entries: seq<Entry>)
    ensures WriteSpec(entries).Ok? <==>
      && NamesFit(entries) && Fits16(|entries|)
      && Fits32(LocalsLength(entries) + CentralsLength(entries) + END_RECORD_LEN)
  {
    hide Plan, Locals, Central, WriteSpec, NamesFit, LocalsLength, CentralsLength, WrittenFits;
    PlannedFits(entries);
    if Plan(entries, 0).Ok? {
      PlanLengths(entries, Plan(entries, 0).value, 0);
    } else if NamesFit(entries) && Fits32(LocalsLength(entries)) {
      PlanSucceeds(entries, 0);
      assert false;
    }
  }

  /** The bytes a directory of these entries takes. */
  ghost function DirectoryLength(listed: seq<Listed>): nat {
    if listed == [] then 0 else CENTRAL_HEADER_LEN + |listed[0].name| + DirectoryLength(listed[1..])
  }

  lemma {:induction false} CentralLength(plan: seq<Written>)
    requires PlanFits(plan)
    ensures |Central(plan)| == DirectoryLength(Listing(plan))
    decreases |plan|
  {
    hide CentralHeader, WrittenFits;
    if plan != [] {
      CentralLength(plan[1..]);
      assert Listing(plan)[1..] == Listing(plan[1..]);
    }
  }

  /** Behind the local records come the directory and the end record, and nothing else. */
  lemma DirectoryTiles(entries: seq<Entry>, bytes: seq<byte>)
    requires WriteSpec(entries) == Ok(bytes)
    requires forall j :: 0 <= j < |entries| ==> ValidUtf8(entries[j].name)
    ensures ListSpec(bytes).Ok? && |bytes| >= END_RECORD_LEN && GetU32(bytes, |bytes| - END_RECORD_LEN + 16).Ok?
    ensures var start := GetU32(bytes, |bytes| - END_RECORD_LEN + 16).value;
      |bytes| == start + DirectoryLength(ListSpec(bytes).value) + END_RECORD_LEN && (entries == [] ==> start == 0)
  {
    hide At, Locals, Central, EndRecord, GetU16, GetU32, ListFrom, DataSpec, CrcSpec, Named, Stored, ValidUtf8,
      ExternalAttributes, Plan, WrittenFits, LocalHeader, DirectoryLength, Listing;
    var plan := Plan(entries, 0).value;
    var locals, central := Locals(plan, entries), Central(plan);
    var end := EndRecord(|plan|, |central|, |locals|);
    Layout(locals, central, end, bytes);
    EndFields(|plan|, |central|, |locals|, bytes, |bytes| - |end|);
    PlanNames(entries, plan, 0);
    DirectoryFound(plan, bytes, |locals|);
    CentralLength(plan);
    NoRecords(plan, entries);
  }

  lemma NoRecords(plan: seq<Written>, entries: seq<Entry>)
    requires |plan| == |entries| && PlanFits(plan)
    ensures entries == [] ==> Locals(plan, entries) == []
  {
  }

  /** Where the reader finds an entry's bytes. */
  ghost function DataStart(bytes: seq<byte>, entry: Listed): nat
    requires DataSpec(bytes, entry).Ok?
  {
    entry.offset + LOCAL_HEADER_LEN + GetU16(bytes, entry.offset + 26).value + GetU16(bytes, entry.offset + 28).value
  }

  lemma SameFields(a: seq<byte>, b: seq<byte>, k: nat, at: nat)
    requires |a| == |b| && k <= |a| && a[..k] == b[..k]
    ensures at + 2 <= k ==> GetU16(a, at) == GetU16(b, at)
    ensures at + 4 <= k ==> GetU32(a, at) == GetU32(b, at)
  {
    if at + 2 <= k {
      assert a[at] == a[..k][at] && a[at + 1] == a[..k][at + 1];
      assert b[at] == b[..k][at] && b[at + 1] == b[..k][at + 1];
    }
    if at + 4 <= k {
      assert a[at + 2] == a[..k][at + 2] && a[at + 3] == a[..k][at + 3];
      assert b[at + 2] == b[..k][at + 2] && b[at + 3] == b[..k][at + 3];
    }
  }

  lemma Pieces(s: seq<byte>, start: nat, k: nat, m: nat, end: nat)
    requires start <= k <= m <= end <= |s|
    ensures s[start..end] == s[start..k] + s[k..m] + s[m..end]
  {
  }

  lemma SamePieces(a: seq<byte>, b: seq<byte>, start: nat, k: nat, m: nat, end: nat)
    requires start <= k <= m <= end <= |a| == |b| && a[..k] == b[..k] && a[m..] == b[m..]
    ensures a[start..k] == b[start..k] && a[m..end] == b[m..end]
  {
    assert a[start..k] == a[..k][start..] && b[start..k] == b[..k][start..];
    assert a[m..end] == a[m..][..end - m] && b[m..end] == b[m..][..end - m];
  }

  /** Any change within four consecutive bytes of an entry's data makes reading it fail its checksum. */
  lemma DamageIsCaught(bytes: seq<byte>, damaged: seq<byte>, entry: Listed, k: nat, n: nat)
    requires DataSpec(bytes, entry).Ok?
    requires DataStart(bytes, entry) <= k && k + n <= DataStart(bytes, entry) + entry.size && n <= 4
    requires |damaged| == |bytes| && k + n <= |bytes|
    requires damaged[..k] == bytes[..k] && damaged[k + n..] == bytes[k + n..]
    requires damaged[k..k + n] != bytes[k..k + n]
    ensures DataSpec(damaged, entry) == Err(CrcMismatch)
  {
    hide GetU16, GetU32, CrcSpec;
    SameFields(bytes, damaged, k, entry.offset);
    SameFields(bytes, damaged, k, entry.offset + 26);
    SameFields(bytes, damaged, k, entry.offset + 28);
    var start, end := DataStart(bytes, entry), DataStart(bytes, entry) + entry.size;
    Pieces(bytes, start, k, k + n, end);
    Pieces(damaged, start, k, k + n, end);
    SamePieces(bytes, damaged, start, k, k + n, end);
    ShortChangeShows(bytes[start..k], bytes[k..k + n], damaged[k..k + n], bytes[k + n..end]);
  }
}
