// Exactly which bytes the zip reader lists and which data it returns.

module ZipExact {
  import opened Basics
  import opened Utf8
  import opened Crc
  import opened Zip
  import opened ZipRoundTrip
  import BitStrings

  // ----- fields -----

  lemma Words(v: nat, low: nat, high: nat, base: nat)
    requires base > 0 && low < base && v == low + base * high
    ensures v % base == low && v / base == high
  {
    BitStrings.DivideUnique(v, base, high, low);
  }

  lemma U16Stands(b: seq<byte>, p: nat, v: nat)
    requires v < 0x1_0000
    ensures GetU16(b, p) == Ok(v) <==> At(b, p, U16(v))
  {
    if GetU16(b, p) == Ok(v) {
      assert v % 0x100 == b[p] as int && v / 0x100 == b[p + 1] as int;
      assert b[p..p + 2] == U16(v);
    }
    if At(b, p, U16(v)) {
      GetsU16(b, p, v);
    }
  }

  lemma U32Stands(b: seq<byte>, p: nat, v: nat)
    requires v < 0x1_0000_0000
    ensures GetU32(b, p) == Ok(v) <==> At(b, p, U32(v))
  {
    hide At, U16;
    if GetU32(b, p) == Ok(v) {
      var low, high := GetU16(b, p).value, GetU16(b, p + 2).value;
      Words(v, low, high, 0x1_0000);
      U16Stands(b, p, low);
      U16Stands(b, p + 2, high);
      AtSplits(b, p, U16(low), U16(high));
    }
    if At(b, p, U32(v)) {
      GetsU32(b, p, v);
    }
  }

  // ----- directory records -----

  /** A directory record as the reader sees it: `made`, `stamp`, `packed` and `disk` are bytes it never looks at. */
  datatype Record = Record(
    name: seq<byte>, external: nat, crc: nat, size: nat, offset: nat, extra: nat, comment: nat,
    made: seq<byte>, stamp: seq<byte>, packed: seq<byte>, disk: seq<byte>)

  ghost predicate RecordFits(r: Record) {
    && ValidUtf8(r.name) && Fits16(|r.name|) && Fits16(r.extra) && Fits16(r.comment)
    && Fits32(r.external) && Fits32(r.crc) && Fits32(r.size) && Fits32(r.offset)
    && |r.made| == 6 && |r.stamp| == 4 && |r.packed| == 4 && |r.disk| == 4
  }

  /** The fixed fields and the name; extra field and comment are only counted. */
  ghost function RecordBytes(r: Record): (b: seq<byte>)
    requires RecordFits(r)
    ensures |b| == CENTRAL_HEADER_LEN + |r.name|
  {
    U32(CENTRAL_SIGNATURE) + (r.made + (U16(0) + (r.stamp + (U32(r.crc) + (r.packed + (U32(r.size) +
    (U16(|r.name|) + (U16(r.extra) + (U16(r.comment) + (r.disk + (U32(r.external) + (U32(r.offset) + r.name))))))))))))
  }

  ghost function Summary(r: Record): Listed {
    Listed(r.name, r.external, r.crc, r.size, r.offset)
  }

  /** Where the next record is looked for, inside the file or not. */
  ghost function NextRecord(p: nat, r: Record): nat {
    p + CENTRAL_HEADER_LEN + |r.name| + r.extra + r.comment
  }

  ghost predicate RecordStands(b: seq<byte>, p: nat, r: Record)
    requires RecordFits(r)
  {
    && At(b, p, U32(CENTRAL_SIGNATURE)) && At(b, p + 4, r.made) && At(b, p + 10, U16(0)) && At(b, p + 12, r.stamp)
    && At(b, p + 16, U32(r.crc)) && At(b, p + 20, r.packed) && At(b, p + 24, U32(r.size))
    && At(b, p + 28, U16(|r.name|)) && At(b, p + 30, U16(r.extra)) && At(b, p + 32, U16(r.comment))
    && At(b, p + 34, r.disk) && At(b, p + 38, U32(r.external)) && At(b, p + 42, U32(r.offset)) && At(b, p + 46, r.name)
  }

  lemma RecordSplits(b: seq<byte>, p: nat, r: Record)
    requires RecordFits(r)
    ensures At(b, p, RecordBytes(r)) <==> RecordStands(b, p, r)
  {
    hide At, U16, U32, ValidUtf8;
    var n := U32(r.offset) + r.name;
    var m := U32(r.external) + n;
    var l := r.disk + m;
    var k := U16(r.comment) + l;
    var j := U16(r.extra) + k;
    var i := U16(|r.name|) + j;
    var h := U32(r.size) + i;
    var g := r.packed + h;
    var f := U32(r.crc) + g;
    var e := r.stamp + f;
    var d := U16(0) + e;
    var c := r.made + d;
    AtSplits(b, p, U32(CENTRAL_SIGNATURE), c);
    AtSplits(b, p + 4, r.made, d);
    AtSplits(b, p + 10, U16(0), e);
    AtSplits(b, p + 12, r.stamp, f);
    AtSplits(b, p + 16, U32(r.crc), g);
    AtSplits(b, p + 20, r.packed, h);
    AtSplits(b, p + 24, U32(r.size), i);
    AtSplits(b, p + 28, U16(|r.name|), j);
    AtSplits(b, p + 30, U16(r.extra), k);
    AtSplits(b, p + 32, U16(r.comment), l);
    AtSplits(b, p + 34, r.disk, m);
    AtSplits(b, p + 38, U32(r.external), n);
    AtSplits(b, p + 42, U32(r.offset), r.name);
  }

  lemma RecordFound(b: seq<byte>, p: nat, r: Record)
    requires RecordFits(r) && At(b, p, RecordBytes(r))
    ensures ListOne(b, p) == Ok((Summary(r), NextRecord(p, r)))
  {
    hide At, U16, U32, GetU16, GetU32, ValidUtf8, RecordBytes;
    RecordSplits(b, p, r);
    U32Stands(b, p, CENTRAL_SIGNATURE);
    U16Stands(b, p + 10, 0);
    U32Stands(b, p + 16, r.crc);
    U32Stands(b, p + 24, r.size);
    U16Stands(b, p + 28, |r.name|);
    U16Stands(b, p + 30, r.extra);
    U16Stands(b, p + 32, r.comment);
    U32Stands(b, p + 38, r.external);
    U32Stands(b, p + 42, r.offset);
    NameStands(b, p + 46, r.name);
  }

  lemma RecordSound(b: seq<byte>, p: nat) returns (r: Record)
    requires ListOne(b, p).Ok?
    ensures RecordFits(r) && At(b, p, RecordBytes(r))
    ensures ListOne(b, p) == Ok((Summary(r), NextRecord(p, r)))
  {
    hide At, U16, U32, GetU16, GetU32, ValidUtf8, RecordBytes;
    var listed := ListOne(b, p).value.0;
    var end := p + CENTRAL_HEADER_LEN + |listed.name|;
    r := Record(listed.name, listed.external, listed.crc, listed.size, listed.offset,
                GetU16(b, p + 30).value, GetU16(b, p + 32).value,
                b[p + 4..p + 10], b[p + 12..p + 16], b[p + 20..p + 24], b[p + 34..p + 38]);
    U32Stands(b, p, CENTRAL_SIGNATURE);
    SliceStands(b, p + 4, p + 10);
    U16Stands(b, p + 10, 0);
    SliceStands(b, p + 12, p + 16);
    U32Stands(b, p + 16, r.crc);
    SliceStands(b, p + 20, p + 24);
    U32Stands(b, p + 24, r.size);
    U16Stands(b, p + 28, |r.name|);
    U16Stands(b, p + 30, r.extra);
    U16Stands(b, p + 32, r.comment);
    SliceStands(b, p + 34, p + 38);
    U32Stands(b, p + 38, r.external);
    U32Stands(b, p + 42, r.offset);
    SliceStands(b, p + 46, end);
    RecordSplits(b, p, r);
  }

  // ----- the directory -----

  /** The records stand one after another, each where the one before it points past its own extra field and comment. */
  ghost predicate RecordsStand(b: seq<byte>, p: nat, records: seq<Record>)
    decreases |records|
  {
    || records == []
    || (&& RecordFits(records[0])
        && At(b, p, RecordBytes(records[0]))
        && RecordsStand(b, NextRecord(p, records[0]), records[1..]))
  }

  ghost function Summaries(records: seq<Record>): seq<Listed> {
    if records == [] then [] else [Summary(records[0])] + Summaries(records[1..])
  }

  lemma {:induction false} RecordsFound(b: seq<byte>, p: nat, records: seq<Record>)
    requires RecordsStand(b, p, records)
    ensures ListFrom(b, p, |records|) == Ok(Summaries(records))
    decreases |records|
  {
    hide At, RecordBytes, RecordFits, ListOne, Summary, NextRecord;
    if records != [] {
      RecordFound(b, p, records[0]);
      RecordsFound(b, NextRecord(p, records[0]), records[1..]);
    }
  }

  lemma {:induction false} RecordsSound(b: seq<byte>, p: nat, count: nat) returns (records: seq<Record>)
    requires ListFrom(b, p, count).Ok?
    ensures |records| == count && RecordsStand(b, p, records)
    decreases count
  {
    hide At, RecordBytes, RecordFits, ListOne, Summary;
    if count == 0 {
      records := [];
    } else {
      var r := RecordSound(b, p);
      var rest := RecordsSound(b, NextRecord(p, r), count - 1);
      records := [r] + rest;
      assert records[1..] == rest;
    }
  }

  /** The end record as the reader sees it: of its 22 bytes only the signature, one count and the start matter. */
  ghost predicate EndStands(b: seq<byte>, count: nat, start: nat) {
    && Fits16(count) && Fits32(start) && |b| >= END_RECORD_LEN
    && At(b, |b| - 22, U32(END_SIGNATURE)) && At(b, |b| - 12, U16(count)) && At(b, |b| - 6, U32(start))
  }

  /** Some directory of these records is listed by the end record of `b`. */
  ghost predicate Directs(b: seq<byte>, start: nat, records: seq<Record>) {
    EndStands(b, |records|, start) && RecordsStand(b, start, records)
  }

  lemma EndFound(b: seq<byte>, count: nat, start: nat)
    requires EndStands(b, count, start)
    ensures ListSpec(b) == ListFrom(b, start, count)
  {
    hide At, U16, U32, GetU16, GetU32, ListFrom;
    U32Stands(b, |b| - 22, END_SIGNATURE);
    U16Stands(b, |b| - 12, count);
    U32Stands(b, |b| - 6, start);
  }

  lemma EndSound(b: seq<byte>) returns (count: nat, start: nat)
    requires ListSpec(b).Ok?
    ensures EndStands(b, count, start)
  {
    hide At, U16, U32, GetU16, GetU32, ListFrom;
    count, start := GetU16(b, |b| - 12).value, GetU32(b, |b| - 6).value;
    U32Stands(b, |b| - 22, END_SIGNATURE);
    U16Stands(b, |b| - 12, count);
    U32Stands(b, |b| - 6, start);
  }

  /** A file lists exactly when its end record leads to as many records as it counts, whatever else it holds. */
  lemma ListExact(b: seq<byte>, listed: seq<Listed>)
    ensures ListSpec(b) == Ok(listed) <==>
      exists start, records :: Directs(b, start, records) && Summaries(records) == listed
  {
    hide ListSpec, ListFrom, RecordsStand, EndStands, Summaries;
    if ListSpec(b) == Ok(listed) {
      var count, start := EndSound(b);
      EndFound(b, count, start);
      var records := RecordsSound(b, start, count);
      RecordsFound(b, start, records);
      assert Directs(b, start, records);
    }
    forall start, records | Directs(b, start, records) && Summaries(records) == listed
      ensures ListSpec(b) == Ok(listed)
    {
      EndFound(b, |records|, start);
      RecordsFound(b, start, records);
    }
  }

  // ----- the data of an entry -----

  /** A local record as the reader sees it: `header` is everything between its signature and its two lengths. */
  datatype Local = Local(header: seq<byte>, name: seq<byte>, extra: seq<byte>)

  ghost predicate LocalFits(l: Local) {
    |l.header| == 22 && Fits16(|l.name|) && Fits16(|l.extra|)
  }

  ghost function LocalBytes(l: Local, data: seq<byte>): seq<byte>
    requires LocalFits(l)
  {
    U32(LOCAL_SIGNATURE) + (l.header + (U16(|l.name|) + (U16(|l.extra|) + (l.name + (l.extra + data)))))
  }

  ghost predicate LocalStands(b: seq<byte>, p: nat, l: Local, data: seq<byte>)
    requires LocalFits(l)
  {
    var start := p + LOCAL_HEADER_LEN + |l.name| + |l.extra|;
    && At(b, p, U32(LOCAL_SIGNATURE)) && At(b, p + 4, l.header) && At(b, p + 26, U16(|l.name|))
    && At(b, p + 28, U16(|l.extra|)) && At(b, p + 30, l.name) && At(b, p + 30 + |l.name|, l.extra) && At(b, start, data)
  }

  lemma LocalSplits(b: seq<byte>, p: nat, l: Local, data: seq<byte>)
    requires LocalFits(l)
    ensures At(b, p, LocalBytes(l, data)) <==> LocalStands(b, p, l, data)
  {
    hide At, U16, U32;
    var f := l.extra + data;
    var e := l.name + f;
    var d := U16(|l.extra|) + e;
    var c := U16(|l.name|) + d;
    AtSplits(b, p, U32(LOCAL_SIGNATURE), l.header + c);
    AtSplits(b, p + 4, l.header, c);
    AtSplits(b, p + 26, U16(|l.name|), d);
    AtSplits(b, p + 28, U16(|l.extra|), e);
    AtSplits(b, p + 30, l.name, f);
    AtSplits(b, p + 30 + |l.name|, l.extra, data);
  }

  ghost predicate Holds(b: seq<byte>, entry: Listed, l: Local, data: seq<byte>) {
    && LocalFits(l) && At(b, entry.offset, LocalBytes(l, data))
    && |data| == entry.size && CrcSpec(data) == entry.crc
  }

  lemma LocalFound(b: seq<byte>, entry: Listed, l: Local, data: seq<byte>)
    requires Holds(b, entry, l, data)
    ensures DataSpec(b, entry) == Ok(data)
  {
    hide At, U16, U32, GetU16, GetU32, CrcSpec, LocalBytes;
    var p := entry.offset;
    LocalSplits(b, p, l, data);
    U32Stands(b, p, LOCAL_SIGNATURE);
    U16Stands(b, p + 26, |l.name|);
    U16Stands(b, p + 28, |l.extra|);
    NameStands(b, p + LOCAL_HEADER_LEN + |l.name| + |l.extra|, data);
  }

  lemma LocalSound(b: seq<byte>, entry: Listed) returns (l: Local)
    requires DataSpec(b, entry).Ok?
    ensures Holds(b, entry, l, DataSpec(b, entry).value)
  {
    hide At, U16, U32, GetU16, GetU32, CrcSpec, LocalBytes;
    var p := entry.offset;
    var n, m := GetU16(b, p + 26).value, GetU16(b, p + 28).value;
    var start := p + LOCAL_HEADER_LEN + n + m;
    l := Local(b[p + 4..p + 26], b[p + 30..p + 30 + n], b[p + 30 + n..start]);
    U32Stands(b, p, LOCAL_SIGNATURE);
    SliceStands(b, p + 4, p + 26);
    U16Stands(b, p + 26, n);
    U16Stands(b, p + 28, m);
    SliceStands(b, p + 30, p + 30 + n);
    SliceStands(b, p + 30 + n, start);
    SliceStands(b, start, start + entry.size);
    LocalSplits(b, p, l, DataSpec(b, entry).value);
  }

  /** An entry gives data exactly when some local record at its offset holds as many bytes with that checksum. */
  lemma DataExact(b: seq<byte>, entry: Listed, data: seq<byte>)
    ensures DataSpec(b, entry) == Ok(data) <==> exists l :: Holds(b, entry, l, data)
  {
    hide DataSpec, Holds;
    if DataSpec(b, entry) == Ok(data) {
      var l := LocalSound(b, entry);
    }
    forall l | Holds(b, entry, l, data) ensures DataSpec(b, entry) == Ok(data) {
      LocalFound(b, entry, l, data);
    }
  }
}
