// Which of the archives the reader accepts the writer can have made: the fields are as it sets them, the parts tile.

module ZipWritten {
  import opened Basics
  import opened Utf8
  import opened Crc
  import opened Zip
  import opened ZipRoundTrip

  // ----- a file that is listed and was never written -----

  /** A lone end record with a disk number and an entry count of its own, which the reader does not look at. */
  function StrangeEnd(x: byte): seq<byte> {
    [0x50, 0x4B, 0x05, 0x06, x, 0, 0, 0, 9, 0, 0, 0, 0, 0, 0, 0, 0, 0, 0, 0, 0, 0]
  }

  /** It lists as an archive of nothing, though no list of entries is ever written so. */
  lemma ReaderTakesMore(x: byte)
    requires x != 0
    ensures ListSpec(StrangeEnd(x)) == Ok([])
    ensures forall entries :: WriteSpec(entries) != Ok(StrangeEnd(x))
  {
    hide WriteSpec, GetU16, GetU32;
    StrangeFields(x);
    forall entries ensures WriteSpec(entries) != Ok(StrangeEnd(x)) {
      DiskIsNought(entries);
    }
  }

  /** The writer always puts disk number 0 into the end record. */
  lemma DiskIsNought(entries: seq<Entry>)
    ensures WriteSpec(entries).Ok? ==> var b := WriteSpec(entries).value; |b| >= END_RECORD_LEN && b[|b| - 18] == 0
  {
    hide Plan, Locals, Central, EndRecord;
    if WriteSpec(entries).Ok? {
      var bytes, plan := WriteSpec(entries).value, Plan(entries, 0).value;
      var locals, central := Locals(plan, entries), Central(plan);
      var end := EndRecord(|plan|, |central|, |locals|);
      EndStarts(|plan|, |central|, |locals|);
      assert bytes[|bytes| - 18] == end[4];
    }
  }

  lemma StrangeFields(x: byte)
    ensures var b := StrangeEnd(x);
      |b| == END_RECORD_LEN && GetU32(b, 0) == Ok(END_SIGNATURE) && GetU16(b, 10) == Ok(0) && GetU32(b, 16) == Ok(0)
  {
    hide GetU16, GetU32, StrangeEnd;
    StrangeSignature(x);
    StrangeCount(x);
    StrangeStart(x);
  }

  lemma StrangeSignature(x: byte)
    ensures |StrangeEnd(x)| == END_RECORD_LEN && GetU32(StrangeEnd(x), 0) == Ok(END_SIGNATURE)
  {
    hide GetU16;
  }

  lemma StrangeCount(x: byte)
    ensures GetU16(StrangeEnd(x), 10) == Ok(0)
  {
    hide GetU32;
  }

  lemma StrangeStart(x: byte)
    ensures GetU32(StrangeEnd(x), 16) == Ok(0)
  {
    hide GetU16;
  }

  lemma EndStarts(count: nat, length: nat, start: nat)
    requires Fits16(count) && Fits32(length) && Fits32(start)
    ensures EndRecord(count, length, start)[4] == 0
  {
    hide U32;
  }

  // ----- the condition -----

  function KindOf(external: nat): Option<Kind> {
    if external == ExternalAttributes(Executable) then Some(Executable)
    else if external == ExternalAttributes(File) then Some(File)
    else if external == ExternalAttributes(Directory) then Some(Directory)
    else None
  }

  lemma KindOfAttributes(kind: Kind)
    ensures KindOf(ExternalAttributes(kind)) == Some(kind)
  {
  }

  /** A listed name, attributes and sizes that the writer could have recorded. */
  ghost predicate Recordable(l: Listed) {
    && KindOf(l.external).Some? && Relative(l.name) && ValidUtf8(l.name)
    && (KindOf(l.external) == Some(Directory) ==> EndsWithSlash(l.name) && l.size == 0)
    && Fits16(|l.name|) && Fits32(l.crc) && Fits32(l.size) && Fits32(l.offset)
  }

  ghost function RecordOf(l: Listed): Written
    requires Recordable(l)
  {
    Written(l.name, KindOf(l.external).value, l.crc, l.size, l.offset)
  }

  /** The entry's local record repeats what the directory says of it, and its data has the recorded checksum. */
  ghost predicate Agreeing(bytes: seq<byte>, l: Listed) {
    && Recordable(l)
    && At(bytes, l.offset, LocalHeader(RecordOf(l)) + l.name)
    && DataSpec(bytes, l).Ok?
  }

  /** The local records lie one right behind the other from `p` to `start`. */
  ghost predicate Tiled(listed: seq<Listed>, p: nat, start: nat) {
    if listed == [] then p == start
    else listed[0].offset == p && Tiled(listed[1..], p + LOCAL_HEADER_LEN + |listed[0].name| + listed[0].size, start)
  }

  ghost predicate AllAgree(bytes: seq<byte>, listed: seq<Listed>) {
    forall i :: 0 <= i < |listed| ==> Agreeing(bytes, listed[i])
  }

  ghost predicate AllRecordable(listed: seq<Listed>) {
    forall i :: 0 <= i < |listed| ==> Recordable(listed[i])
  }

  ghost function RecordsOf(listed: seq<Listed>): (plan: seq<Written>)
    requires AllRecordable(listed)
    ensures |plan| == |listed| && PlanFits(plan)
  {
    if listed == [] then [] else [RecordOf(listed[0])] + RecordsOf(listed[1..])
  }

  /** Behind the local records: the directory with every field the writer fixes, then the end record, then nothing. */
  ghost predicate EndsAsWritten(bytes: seq<byte>, plan: seq<Written>, start: nat)
    requires PlanFits(plan)
  {
    var length := |Central(plan)|;
    && Fits16(|plan|) && Fits32(length) && Fits32(start) && Fits32(|bytes|)
    && |bytes| == start + length + END_RECORD_LEN
    && At(bytes, start, Central(plan) + EndRecord(|plan|, length, start))
  }

  /** Every entry agrees with its local record, and the parts tile the file. */
  ghost predicate AsWritten(bytes: seq<byte>, listed: seq<Listed>) {
    && AllAgree(bytes, listed)
    && AllRecordable(listed)
    && exists start :: Tiled(listed, 0, start) && EndsAsWritten(bytes, RecordsOf(listed), start)
  }

  // ----- an archive that meets it can be written -----

  ghost function EntryOf(bytes: seq<byte>, l: Listed): Entry
    requires Agreeing(bytes, l)
  {
    Entry(l.name, KindOf(l.external).value, DataSpec(bytes, l).value)
  }

  ghost function EntriesOf(bytes: seq<byte>, listed: seq<Listed>): (entries: seq<Entry>)
    requires AllAgree(bytes, listed)
    ensures |entries| == |listed| && forall i :: 0 <= i < |listed| ==> entries[i].name == listed[i].name
  {
    seq(|listed|, i requires 0 <= i < |listed| => EntryOf(bytes, listed[i]))
  }

  lemma DataStandsHere(bytes: seq<byte>, l: Listed)
    requires Agreeing(bytes, l)
    ensures var data := DataSpec(bytes, l).value;
      && |data| == l.size && CrcSpec(data) == l.crc
      && At(bytes, l.offset, LocalRecord(RecordOf(l), data))
      && Named(EntryOf(bytes, l)) == l.name && Stored(EntryOf(bytes, l)) == data
  {
    hide At, LocalHeader, GetU16, GetU32, CrcSpec, ValidUtf8, Relative;
    var w, data := RecordOf(l), DataSpec(bytes, l).value;
    AtSplits(bytes, l.offset, LocalHeader(w), l.name);
    LocalFields(w, bytes, l.offset);
    var start := l.offset + LOCAL_HEADER_LEN + |l.name|;
    SliceStands(bytes, start, start + l.size);
    AtSplits(bytes, l.offset + LOCAL_HEADER_LEN, l.name, data);
    AtSplits(bytes, l.offset, LocalHeader(w), l.name + data);
  }

  lemma {:induction false} PlanIsListed(bytes: seq<byte>, listed: seq<Listed>, p: nat, start: nat)
    requires AllAgree(bytes, listed) && AllRecordable(listed) && Tiled(listed, p, start) && p <= |bytes|
    ensures Plan(EntriesOf(bytes, listed), p) == Ok(RecordsOf(listed))
    ensures At(bytes, p, Locals(RecordsOf(listed), EntriesOf(bytes, listed)))
    ensures p + |Locals(RecordsOf(listed), EntriesOf(bytes, listed))| == start
    decreases |listed|
  {
    hide At, DataSpec, CrcSpec, ValidUtf8, Relative, LocalHeader, Named, Stored, KindOf, ExternalAttributes;
    var entries := EntriesOf(bytes, listed);
    if listed == [] {
      NothingStands(bytes, p);
    } else {
      var l, data := listed[0], DataSpec(bytes, listed[0]).value;
      DataStandsHere(bytes, l);
      var record := LocalRecord(RecordOf(l), data);
      RecordInside(bytes, p, record);
      PlanIsListed(bytes, listed[1..], p + |record|, start);
      assert entries[1..] == EntriesOf(bytes, listed[1..]);
      assert RecordsOf(listed)[1..] == RecordsOf(listed[1..]);
      AtSplits(bytes, p, record, Locals(RecordsOf(listed[1..]), EntriesOf(bytes, listed[1..])));
    }
  }

  lemma RecordInside(bytes: seq<byte>, p: nat, record: seq<byte>)
    requires At(bytes, p, record)
    ensures p + |record| <= |bytes|
  {
  }

  lemma CanBeWritten(bytes: seq<byte>, listed: seq<Listed>)
    requires AsWritten(bytes, listed)
    ensures WriteSpec(EntriesOf(bytes, listed)) == Ok(bytes)
    ensures forall i :: 0 <= i < |listed| ==> ValidUtf8(EntriesOf(bytes, listed)[i].name)
  {
    hide At, DataSpec, ValidUtf8, Plan, Locals, Central, EndRecord, WrittenFits, Tiled, EntriesOf, RecordsOf,
      LocalHeader;
    var start :| Tiled(listed, 0, start) && EndsAsWritten(bytes, RecordsOf(listed), start);
    var plan, entries := RecordsOf(listed), EntriesOf(bytes, listed);
    PlanIsListed(bytes, listed, 0, start);
    var locals, central := Locals(plan, entries), Central(plan);
    WholeIsParts(bytes, locals, central + EndRecord(|plan|, |central|, start));
  }

  lemma WholeIsParts(bytes: seq<byte>, a: seq<byte>, b: seq<byte>)
    requires At(bytes, 0, a) && At(bytes, |a|, b) && |bytes| == |a| + |b|
    ensures bytes == a + b
  {
    assert bytes == bytes[0..|a|] + bytes[|a|..|a| + |b|];
  }

  // ----- an archive that was written meets it -----

  lemma {:induction false} PlanTiles(entries: seq<Entry>, plan: seq<Written>, p: nat)
    requires Plan(entries, p) == Ok(plan)
    ensures |plan| == |entries| && PlanFits(plan)
    ensures Tiled(Listing(plan), p, p + |Locals(plan, entries)|)
    decreases |entries|
  {
    hide CrcSpec, Named, Stored, Relative, LocalHeader;
    if |plan| > 0 {
      PlanTurn(entries, plan, p);
      PlanTiles(entries[1..], plan[1..], p + |LocalRecord(plan[0], Stored(entries[0]))|);
      assert Listing(plan)[1..] == Listing(plan[1..]);
    }
  }

  lemma NamedDirectory(e: Entry)
    ensures e.kind == Directory ==> EndsWithSlash(Named(e)) && Stored(e) == []
  {
  }

  lemma WrittenAgrees(entries: seq<Entry>, plan: seq<Written>, bytes: seq<byte>, i: nat)
    requires Plan(entries, 0) == Ok(plan) && NamesValid(plan) && At(bytes, 0, Locals(plan, entries)) && i < |plan|
    ensures Agreeing(bytes, ListingOf(plan[i])) && RecordOf(ListingOf(plan[i])) == plan[i]
  {
    hide At, CrcSpec, Named, Stored, Relative, LocalHeader, Locals, Plan, KindOf, ExternalAttributes, DataSpec,
      ValidUtf8, Central;
    LocalsStand(entries, plan, bytes, 0, i);
    PlanLengths(entries, plan, 0);
    var w, e := plan[i], entries[i];
    NamedDirectory(e);
    KindOfAttributes(w.kind);
    DataFound(w, Stored(e), bytes);
    AtSplits(bytes, w.offset, LocalHeader(w), w.name + Stored(e));
    AtSplits(bytes, w.offset + LOCAL_HEADER_LEN, w.name, Stored(e));
    AtSplits(bytes, w.offset, LocalHeader(w), w.name);
  }

  lemma {:induction false} RecordsOfAt(listed: seq<Listed>, i: nat)
    requires AllRecordable(listed) && i < |listed|
    ensures RecordsOf(listed)[i] == RecordOf(listed[i])
    decreases |listed|
  {
    hide Recordable, RecordOf;
    if i > 0 {
      RecordsOfAt(listed[1..], i - 1);
    }
  }

  lemma {:induction false} RecordsOfListing(plan: seq<Written>)
    requires AllRecordable(Listing(plan))
    requires forall i :: 0 <= i < |plan| ==> RecordOf(ListingOf(plan[i])) == plan[i]
    ensures RecordsOf(Listing(plan)) == plan
  {
    hide Recordable, RecordOf;
    forall i: nat | i < |plan| ensures RecordsOf(Listing(plan))[i] == plan[i] {
      RecordsOfAt(Listing(plan), i);
    }
  }

  lemma WasWritten(entries: seq<Entry>, bytes: seq<byte>)
    requires WriteSpec(entries) == Ok(bytes)
    requires forall i :: 0 <= i < |entries| ==> ValidUtf8(entries[i].name)
    ensures ListSpec(bytes).Ok? && AsWritten(bytes, ListSpec(bytes).value)
  {
    hide At, Locals, Central, EndRecord, GetU16, GetU32, ListFrom, DataSpec, ValidUtf8, Plan, WrittenFits, LocalHeader,
      Agreeing, Recordable, RecordOf, RecordsOf, Tiled, ListingOf;
    var plan := Plan(entries, 0).value;
    var locals, central := Locals(plan, entries), Central(plan);
    var end := EndRecord(|plan|, |central|, |locals|);
    Layout(locals, central, end, bytes);
    EndFields(|plan|, |central|, |locals|, bytes, |bytes| - |end|);
    PlanNames(entries, plan, 0);
    DirectoryFound(plan, bytes, |locals|);
    var listed := Listing(plan);
    forall i: nat | i < |listed| ensures Agreeing(bytes, listed[i]) && RecordableAs(listed[i], plan[i]) {
      WrittenAgrees(entries, plan, bytes, i);
      AgreeingIsRecordable(bytes, listed[i]);
    }
    RecordsOfListing(plan);
    PlanTiles(entries, plan, 0);
    AtSplits(bytes, |locals|, central, end);
    assert EndsAsWritten(bytes, RecordsOf(listed), |locals|);
  }

  ghost predicate RecordableAs(l: Listed, w: Written) {
    Recordable(l) && RecordOf(l) == w
  }

  lemma AgreeingIsRecordable(bytes: seq<byte>, l: Listed)
    requires Agreeing(bytes, l)
    ensures Recordable(l)
  {
  }

  /** Some entries are written as these bytes exactly when the bytes list and every field and part is as written. */
  lemma WrittenExact(bytes: seq<byte>)
    ensures (exists entries: seq<Entry> ::
               (forall i :: 0 <= i < |entries| ==> ValidUtf8(entries[i].name)) && WriteSpec(entries) == Ok(bytes))
            <==> ListSpec(bytes).Ok? && AsWritten(bytes, ListSpec(bytes).value)
  {
    hide WriteSpec, ListSpec, AsWritten, AllAgree, ValidUtf8, EntriesOf;
    if ListSpec(bytes).Ok? && AsWritten(bytes, ListSpec(bytes).value) {
      CanBeWritten(bytes, ListSpec(bytes).value);
    }
    forall entries: seq<Entry> |
      (forall i :: 0 <= i < |entries| ==> ValidUtf8(entries[i].name)) && WriteSpec(entries) == Ok(bytes)
      ensures ListSpec(bytes).Ok? && AsWritten(bytes, ListSpec(bytes).value)
    {
      WasWritten(entries, bytes);
    }
  }
}
