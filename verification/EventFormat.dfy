/** The event wire format of Event.cpp: what the bytes of an event say, and what its readers make of them. */
module EventFormat {
  import opened Bytes
  import opened Names
  import opened Wrappers

  datatype Field = Field(name: seq<Byte>, raw: seq<Byte>, interp: seq<Byte>, kind: int)

  datatype Record = Record(kind: nat, name: seq<Byte>, text: seq<Byte>, fields: seq<Field>)

  datatype Event = Event(sec: nat, msec: nat, serial: nat, flags: nat, pid: int, records: seq<Record>)

  const U16 := 0x1_0000
  const U32 := 0x1_0000_0000

  // offsets in the event header
  const SEC := 4
  const MSEC := 12
  const SERIAL := 16
  const NUM_RECORDS := 24
  const FLAGS := 26
  const PID := 30
  const RECORD_INDEX := 34

  // offsets in a record, and the size of a field's header
  const FIELD_INDEX := 10
  const FIELD_HEADER := 12

  // ---------------------------------------------------------------- words and texts

  /** The k-byte unsigned integer at p. */
  function Word(b: seq<Byte>, p: nat, k: nat): nat
    requires p + k <= |b|
  {
    LeVal(b[p..p + k])
  }

  function PutWord(b: seq<Byte>, p: nat, n: nat, k: nat): (r: seq<Byte>)
    requires p + k <= |b|
    ensures |r| == |b|
  {
    Splice(b, p, Le(n, k))
  }

  /** memcpy of a text and the NUL behind it. */
  function PutText(b: seq<Byte>, p: nat, t: seq<Byte>): (r: seq<Byte>)
    requires p + |t| < |b|
    ensures |r| == |b|
  {
    Splice(b, p, t + [0])
  }

  ghost predicate TextAt(b: seq<Byte>, p: nat, t: seq<Byte>) {
    p + |t| < |b| && b[p..p + |t|] == t && b[p + |t|] == 0
  }

  /** b and c have the same bytes at lo..hi. */
  ghost predicate Same(b: seq<Byte>, c: seq<Byte>, lo: nat, hi: nat) {
    hi <= |b| && hi <= |c| && forall i | lo <= i < hi :: b[i] == c[i]
  }

  lemma WordSame(b: seq<Byte>, c: seq<Byte>, p: nat, k: nat)
    requires Same(b, c, p, p + k)
    ensures Word(b, p, k) == Word(c, p, k)
  {
    assert b[p..p + k] == c[p..p + k];
  }

  lemma TextSame(b: seq<Byte>, c: seq<Byte>, p: nat, t: seq<Byte>)
    requires TextAt(b, p, t) && Same(b, c, p, p + |t| + 1)
    ensures TextAt(c, p, t)
  {
    assert b[p..p + |t|] == c[p..p + |t|];
  }

  lemma WordPut(b: seq<Byte>, p: nat, n: nat, k: nat)
    requires p + k <= |b|
    ensures var r := PutWord(b, p, n, k);
            Word(r, p, k) == n % Pow256(k) && Same(b, r, 0, p) && Same(b, r, p + k, |b|)
  {
    LeRoundTrip(n, k);
  }

  lemma TextPut(b: seq<Byte>, p: nat, t: seq<Byte>)
    requires p + |t| < |b|
    ensures var r := PutText(b, p, t);
            TextAt(r, p, t) && Same(b, r, 0, p) && Same(b, r, p + |t| + 1, |b|)
  {
    var r := PutText(b, p, t);
    var s := r[p..p + |t| + 1];
    assert s == t + [0];
    assert r[p..p + |t|] == s[..|t|] && r[p + |t|] == s[|t|];
  }

  // ---------------------------------------------------------------- sizes and offsets

  function InterpSize(f: Field): nat {
    if f.interp == [] then 0 else |f.interp| + 1
  }

  function FieldSize(f: Field): nat {
    FIELD_HEADER + |f.name| + 1 + |f.raw| + 1 + InterpSize(f)
  }

  /** RECORD_HEADER_SIZE for a record declared with n fields. */
  function RecordHeader(r: Record, n: nat): nat {
    FIELD_INDEX + 8 * n + |r.name| + 1 + |r.text| + 1
  }

  /** Where the fields fs end when the first starts at h. */
  function FieldsEnd(h: nat, fs: seq<Field>): (e: nat)
    ensures e >= h && (fs == [] ==> e == h)
  {
    if fs == [] then h else FieldsEnd(h, fs[..|fs| - 1]) + FieldSize(fs[|fs| - 1])
  }

  function RecordSize(r: Record): nat {
    FieldsEnd(RecordHeader(r, |r.fields|), r.fields)
  }

  /** Where the records rs of an event declared with n records end. */
  function RecordsEnd(n: nat, rs: seq<Record>): (e: nat)
    ensures e >= RECORD_INDEX + 4 * n
  {
    if rs == [] then RECORD_INDEX + 4 * n else RecordsEnd(n, rs[..|rs| - 1]) + RecordSize(rs[|rs| - 1])
  }

  lemma FieldsEndMono(h: nat, fs: seq<Field>, j: nat)
    requires j < |fs|
    ensures FieldsEnd(h, fs[..j]) + FieldSize(fs[j]) <= FieldsEnd(h, fs)
    decreases |fs|
  {
    if j < |fs| - 1 {
      FieldsEndMono(h, fs[..|fs| - 1], j);
      assert fs[..|fs| - 1][..j] == fs[..j];
    }
  }

  lemma RecordsEndMono(n: nat, rs: seq<Record>, i: nat)
    requires i < |rs|
    ensures RecordsEnd(n, rs[..i]) + RecordSize(rs[i]) <= RecordsEnd(n, rs)
    decreases |rs|
  {
    if i < |rs| - 1 {
      RecordsEndMono(n, rs[..|rs| - 1], i);
      assert rs[..|rs| - 1][..i] == rs[..i];
    }
  }

  // ---------------------------------------------------------------- what the bytes say

  /** The lengths AddField accepts. */
  predicate Accepted(f: Field) {
    |f.name| + 1 < U16 && |f.raw| + 1 < U32 && InterpSize(f) < U32
  }

  /** The lengths that survive AddField's narrowing casts. */
  predicate SizesFit(f: Field) {
    |f.raw| + 1 < U16 && InterpSize(f) < U16
  }

  predicate Fits(f: Field) {
    SizesFit(f) && 0 <= f.kind < U16
  }

  /** A field written at p. Sizes and type are stored in 16 bits, whatever they were. */
  ghost predicate FieldAt(b: seq<Byte>, p: nat, f: Field) {
    && Accepted(f) && p + FieldSize(f) <= |b|
    && Word(b, p, 2) == f.kind % U16
    && Word(b, p + 2, 2) == |f.name| + 1
    && Word(b, p + 4, 4) == (|f.raw| + 1) % U16
    && Word(b, p + 8, 4) == InterpSize(f) % U16
    && TextAt(b, p + FIELD_HEADER, f.name)
    && (SizesFit(f) ==> TextAt(b, p + FIELD_HEADER + |f.name| + 1, f.raw))
    && (SizesFit(f) && f.interp != [] ==> TextAt(b, p + FIELD_HEADER + |f.name| + 1 + |f.raw| + 1, f.interp))
  }

  /** Field j of a record that starts at ro: its place is in the index, and it is there. */
  ghost predicate FieldPlaced(b: seq<Byte>, ro: nat, r: Record, n: nat, j: nat)
    requires j < |r.fields|
  {
    var fo := FieldsEnd(RecordHeader(r, n), r.fields[..j]);
    && ro + FIELD_INDEX + 4 * j + 4 <= |b| && Word(b, ro + FIELD_INDEX + 4 * j, 4) == fo
    && FieldAt(b, ro + fo, r.fields[j])
  }

  /** The header of a record declared with n fields. */
  ghost predicate RecordHeaderAt(b: seq<Byte>, ro: nat, r: Record, n: nat) {
    && ro + RecordHeader(r, n) <= |b|
    && Word(b, ro, 4) == r.kind && Word(b, ro + 4, 2) == n
    && Word(b, ro + 6, 2) == |r.name| + 1 && Word(b, ro + 8, 2) == |r.text| + 1
    && TextAt(b, ro + FIELD_INDEX + 8 * n, r.name) && TextAt(b, ro + FIELD_INDEX + 8 * n + |r.name| + 1, r.text)
  }

  /** A record, declared with n fields, of which those in r have been added. */
  ghost predicate RecordAt(b: seq<Byte>, ro: nat, r: Record, n: nat) {
    && |r.fields| <= n && ro + FieldsEnd(RecordHeader(r, n), r.fields) <= |b|
    && RecordHeaderAt(b, ro, r, n)
    && forall j | 0 <= j < |r.fields| :: FieldPlaced(b, ro, r, n, j)
  }

  /** Entry j of the index that starts at p. */
  function Entry(b: seq<Byte>, p: nat, j: nat): nat
    requires p + 4 * j + 4 <= |b|
  {
    Word(b, p + 4 * j, 4)
  }

  function Index(b: seq<Byte>, p: nat, n: nat): (r: seq<nat>)
    requires p + 4 * n <= |b|
    ensures |r| == n
  {
    seq(n, j requires 0 <= j < n => Entry(b, p, j))
  }

  /** Offsets in a record of field names, in the order of the names. */
  ghost predicate NamesSorted(b: seq<Byte>, ro: nat, xs: seq<nat>) {
    AllIn(b, ro + FIELD_HEADER, xs) && Names.InOrder(b, ro + FIELD_HEADER, xs)
  }

  /** The second field index of a record: the first one, sorted by field name. */
  ghost predicate SortedAt(b: seq<Byte>, ro: nat, n: nat) {
    && ro + FIELD_INDEX + 8 * n <= |b|
    && multiset(Index(b, ro + FIELD_INDEX + 4 * n, n)) == multiset(Index(b, ro + FIELD_INDEX, n))
    && NamesSorted(b, ro, Index(b, ro + FIELD_INDEX + 4 * n, n))
  }

  ghost predicate RecordPlaced(b: seq<Byte>, rs: seq<Record>, n: nat, i: nat)
    requires i < |rs|
  {
    var ro := RecordsEnd(n, rs[..i]);
    && RECORD_INDEX + 4 * i + 4 <= |b| && Word(b, RECORD_INDEX + 4 * i, 4) == ro
    && 0 < |rs[i].fields| && RecordAt(b, ro, rs[i], |rs[i].fields|) && SortedAt(b, ro, |rs[i].fields|)
  }

  ghost predicate EventHeaderAt(b: seq<Byte>, e: Event, n: nat) {
    && RECORD_INDEX <= |b|
    && Word(b, SEC, 8) == e.sec && Word(b, MSEC, 4) == e.msec && Word(b, SERIAL, 8) == e.serial
    && Word(b, NUM_RECORDS, 2) == n && Word(b, FLAGS, 4) == e.flags && Signed(Word(b, PID, 4)) == e.pid
  }

  /** An event, declared with n records, of which those in e have been added. */
  ghost predicate EventAt(b: seq<Byte>, e: Event, n: nat) {
    && 0 < n && |e.records| <= n && RecordsEnd(n, e.records) <= |b|
    && EventHeaderAt(b, e, n)
    && forall i | 0 <= i < |e.records| :: RecordPlaced(b, e.records, n, i)
  }

  /** int32_t from its 32 bits. */
  function Signed(n: nat): int {
    if n < U32 / 2 then n else n - U32
  }

  // ---------------------------------------------------------------- bytes elsewhere do not matter

  lemma FieldSame(b: seq<Byte>, c: seq<Byte>, p: nat, f: Field)
    requires FieldAt(b, p, f) && Same(b, c, p, p + FieldSize(f))
    ensures FieldAt(c, p, f)
  {
    hide Word, TextAt;
    WordSame(b, c, p, 2);
    WordSame(b, c, p + 2, 2);
    WordSame(b, c, p + 4, 4);
    WordSame(b, c, p + 8, 4);
    TextSame(b, c, p + FIELD_HEADER, f.name);
    if SizesFit(f) {
      TextSame(b, c, p + FIELD_HEADER + |f.name| + 1, f.raw);
      if f.interp != [] { TextSame(b, c, p + FIELD_HEADER + |f.name| + 1 + |f.raw| + 1, f.interp); }
    }
  }

  lemma RecordHeaderSame(b: seq<Byte>, c: seq<Byte>, ro: nat, r: Record, n: nat)
    requires RecordHeaderAt(b, ro, r, n)
    requires Same(b, c, ro, ro + FIELD_INDEX) && Same(b, c, ro + FIELD_INDEX + 8 * n, ro + RecordHeader(r, n))
    ensures RecordHeaderAt(c, ro, r, n)
  {
    hide Word, TextAt;
    WordSame(b, c, ro, 4);
    WordSame(b, c, ro + 4, 2);
    WordSame(b, c, ro + 6, 2);
    WordSame(b, c, ro + 8, 2);
    TextSame(b, c, ro + FIELD_INDEX + 8 * n, r.name);
    TextSame(b, c, ro + FIELD_INDEX + 8 * n + |r.name| + 1, r.text);
  }

  lemma FieldPlacedSame(b: seq<Byte>, c: seq<Byte>, ro: nat, r: Record, n: nat, j: nat)
    requires j < |r.fields| && FieldPlaced(b, ro, r, n, j)
    requires Same(b, c, ro + FIELD_INDEX + 4 * j, ro + FIELD_INDEX + 4 * j + 4)
    requires Same(b, c, ro + RecordHeader(r, n), ro + FieldsEnd(RecordHeader(r, n), r.fields))
    ensures FieldPlaced(c, ro, r, n, j)
  {
    hide Word, FieldAt;
    var h := RecordHeader(r, n);
    WordSame(b, c, ro + FIELD_INDEX + 4 * j, 4);
    FieldsEndMono(h, r.fields, j);
    FieldSame(b, c, ro + FieldsEnd(h, r.fields[..j]), r.fields[j]);
  }

  lemma RecordSame(b: seq<Byte>, c: seq<Byte>, ro: nat, r: Record, n: nat)
    requires RecordAt(b, ro, r, n)
    requires Same(b, c, ro, ro + FIELD_INDEX + 4 * |r.fields|)
    requires Same(b, c, ro + FIELD_INDEX + 8 * n, ro + FieldsEnd(RecordHeader(r, n), r.fields))
    ensures RecordAt(c, ro, r, n)
  {
    hide Word, TextAt, FieldPlaced, RecordHeaderAt;
    RecordHeaderSame(b, c, ro, r, n);
    forall j | 0 <= j < |r.fields| ensures FieldPlaced(c, ro, r, n, j) {
      FieldPlacedSame(b, c, ro, r, n, j);
    }
  }

  lemma IndexSame(b: seq<Byte>, c: seq<Byte>, p: nat, n: nat)
    requires Same(b, c, p, p + 4 * n)
    ensures Index(b, p, n) == Index(c, p, n)
  {
    forall j | 0 <= j < n ensures Entry(b, p, j) == Entry(c, p, j) {
      WordSame(b, c, p + 4 * j, 4);
    }
  }

  /** The field an offset of the first index leads to. */
  lemma IndexedField(b: seq<Byte>, ro: nat, r: Record, j: nat)
    requires RecordAt(b, ro, r, |r.fields|) && j < |r.fields|
    ensures var n := |r.fields|;
            var x := Index(b, ro + FIELD_INDEX, n)[j];
            && x == FieldsEnd(RecordHeader(r, n), r.fields[..j])
            && ro + x + FIELD_HEADER + |r.fields[j].name| < ro + RecordSize(r)
            && TextAt(b, ro + x + FIELD_HEADER, r.fields[j].name)
            && CString(b, ro + FIELD_HEADER + x) == CPrefix(r.fields[j].name)
  {
    hide Word, CPrefix, CString, RecordHeaderAt, FieldsEnd, TextAt, RecordHeader;
    var n := |r.fields|;
    assert FieldPlaced(b, ro, r, n, j);
    FieldsEndMono(RecordHeader(r, n), r.fields, j);
    HeaderInRecord(r);
    var x := Entry(b, ro + FIELD_INDEX, j);
    TextIsName(b, ro + x + FIELD_HEADER, r.fields[j].name);
  }

  lemma TextIsName(b: seq<Byte>, p: nat, t: seq<Byte>)
    requires TextAt(b, p, t)
    ensures p + |t| < |b| && CString(b, p) == CPrefix(t)
  {
    TerminatedText(b, p, t);
  }

  lemma InIndex(xs: seq<nat>, ys: seq<nat>, i: nat) returns (j: nat)
    requires multiset(xs) == multiset(ys) && i < |xs|
    ensures j < |ys| && ys[j] == xs[i]
  {
    assert xs[i] in multiset(xs);
    assert xs[i] in ys;
    j :| 0 <= j < |ys| && ys[j] == xs[i];
  }

  /** Each entry of the sorted index is the offset of some field, and each field has one. */
  lemma SortedField(b: seq<Byte>, ro: nat, n: nat, i: nat) returns (j: nat)
    requires SortedAt(b, ro, n) && i < n
    ensures j < n && Index(b, ro + FIELD_INDEX + 4 * n, n)[i] == Index(b, ro + FIELD_INDEX, n)[j]
  {
    hide Index, NamesSorted;
    j := InIndex(Index(b, ro + FIELD_INDEX + 4 * n, n), Index(b, ro + FIELD_INDEX, n), i);
  }

  lemma HeaderInRecord(r: Record)
    ensures FIELD_INDEX + 8 * |r.fields| <= RecordHeader(r, |r.fields|) <= RecordSize(r)
  {
  }

  lemma SortedSame(b: seq<Byte>, c: seq<Byte>, ro: nat, r: Record)
    requires RecordAt(b, ro, r, |r.fields|) && SortedAt(b, ro, |r.fields|) && RecordAt(c, ro, r, |r.fields|)
    requires Same(b, c, ro, ro + RecordSize(r))
    ensures SortedAt(c, ro, |r.fields|)
  {
    hide CString, NamesSorted, RecordAt, Index, TextAt, RecordHeader;
    var n := |r.fields|;
    assert Same(b, c, ro, ro + FIELD_INDEX + 8 * n) by { HeaderInRecord(r); }
    IndexSame(b, c, ro + FIELD_INDEX + 4 * n, n);
    IndexSame(b, c, ro + FIELD_INDEX, n);
    var xs := Index(b, ro + FIELD_INDEX + 4 * n, n);
    forall i | 0 <= i < n ensures NameSame(b, c, ro + FIELD_HEADER + xs[i]) {
      var j := SortedField(b, ro, n, i);
      IndexedField(b, ro, r, j);
      IndexedField(c, ro, r, j);
    }
    OrderSame(b, c, ro, xs);
  }

  ghost predicate NameSame(b: seq<Byte>, c: seq<Byte>, p: nat) {
    p <= |b| && p <= |c| && CString(b, p) == CString(c, p)
  }

  lemma OrderSame(b: seq<Byte>, c: seq<Byte>, ro: nat, xs: seq<nat>)
    requires NamesSorted(b, ro, xs) && forall i | 0 <= i < |xs| :: NameSame(b, c, ro + FIELD_HEADER + xs[i])
    ensures NamesSorted(c, ro, xs)
  {
    hide CString, Names.NotAfter;
    var base := ro + FIELD_HEADER;
    forall i | 0 <= i < |xs| ensures base + xs[i] <= |c| { assert NameSame(b, c, base + xs[i]); }
    forall i, j | 0 <= i < j < |xs| ensures Names.NotAfter(c, base + xs[i], base + xs[j]) {
      assert Names.NotAfter(b, base + xs[i], base + xs[j]);
      assert NameSame(b, c, base + xs[i]) && NameSame(b, c, base + xs[j]);
      SameOrder(b, c, base + xs[i], base + xs[j]);
    }
  }

  lemma SameOrder(b: seq<Byte>, c: seq<Byte>, p: nat, q: nat)
    requires p <= |b| && q <= |b| && p <= |c| && q <= |c|
    requires CString(b, p) == CString(c, p) && CString(b, q) == CString(c, q) && Names.NotAfter(b, p, q)
    ensures Names.NotAfter(c, p, q)
  {
  }

  lemma SameSub(b: seq<Byte>, c: seq<Byte>, lo: nat, hi: nat, from: nat, to: nat)
    requires Same(b, c, lo, hi) && lo <= from <= to <= hi
    ensures Same(b, c, from, to)
  {
  }

  lemma SameLength(b: seq<Byte>, c: seq<Byte>, lo: nat, hi: nat)
    requires Same(b, c, lo, hi)
    ensures hi <= |b| && hi <= |c|
  {
  }

  lemma RecordPlacedSame(b: seq<Byte>, c: seq<Byte>, rs: seq<Record>, n: nat, i: nat)
    requires i < |rs| && RecordPlaced(b, rs, n, i)
    requires Same(b, c, RECORD_INDEX + 4 * i, RECORD_INDEX + 4 * i + 4)
    requires Same(b, c, RECORD_INDEX + 4 * n, RecordsEnd(n, rs))
    ensures RecordPlaced(c, rs, n, i)
  {
    hide Word, RecordAt, SortedAt, Same, FieldsEnd, RecordHeader;
    WordSame(b, c, RECORD_INDEX + 4 * i, 4);
    SameLength(b, c, RECORD_INDEX + 4 * i, RECORD_INDEX + 4 * i + 4);
    RecordsEndMono(n, rs, i);
    var ro, r := RecordsEnd(n, rs[..i]), rs[i];
    HeaderInRecord(r);
    SameSub(b, c, RECORD_INDEX + 4 * n, RecordsEnd(n, rs), ro, ro + RecordSize(r));
    SameSub(b, c, ro, ro + RecordSize(r), ro, ro + FIELD_INDEX + 4 * |r.fields|);
    SameSub(b, c, ro, ro + RecordSize(r), ro + FIELD_INDEX + 8 * |r.fields|, ro + RecordSize(r));
    RecordSame(b, c, ro, r, |r.fields|);
    SortedSame(b, c, ro, r);
  }

  /** An event stays readable when its size word or bytes behind its records change. */
  lemma EventSame(b: seq<Byte>, c: seq<Byte>, e: Event, n: nat)
    requires EventAt(b, e, n)
    requires Same(b, c, SEC, RECORD_INDEX + 4 * |e.records|)
             && Same(b, c, RECORD_INDEX + 4 * n, RecordsEnd(n, e.records))
    ensures EventAt(c, e, n)
  {
    hide Word, RecordPlaced, RecordsEnd;
    WordSame(b, c, SEC, 8);
    WordSame(b, c, MSEC, 4);
    WordSame(b, c, SERIAL, 8);
    WordSame(b, c, NUM_RECORDS, 2);
    WordSame(b, c, FLAGS, 4);
    WordSame(b, c, PID, 4);
    forall i | 0 <= i < |e.records| ensures RecordPlaced(c, e.records, n, i) {
      assert RecordPlaced(b, e.records, n, i);
      RecordPlacedSame(b, c, e.records, n, i);
    }
  }

  // ---------------------------------------------------------------- the readers

  /** A string view of a stored size minus one, in 32-bit arithmetic; None when it leaves the buffer. */
  function ReadText(b: seq<Byte>, p: nat, size: nat): Option<seq<Byte>> {
    var n := (size + U32 - 1) % U32;
    if p + n <= |b| then Some(b[p..p + n]) else None
  }

  /** EventRecordField: FieldName, RawValue, InterpValue and FieldType of the field at p. */
  function ReadField(b: seq<Byte>, p: nat): Option<Field> {
    if p + FIELD_HEADER > |b| then None
    else
      var nameSize, rawSize, interpSize := Word(b, p + 2, 2), Word(b, p + 4, 4), Word(b, p + 8, 4);
      var name := ReadText(b, p + FIELD_HEADER, nameSize);
      var raw := ReadText(b, p + FIELD_HEADER + nameSize, rawSize);
      var interp := if interpSize > 0 then ReadText(b, p + FIELD_HEADER + nameSize + rawSize, interpSize) else Some([]);
      if name.None? || raw.None? || interp.None? then None
      else Some(Field(name.value, raw.value, interp.value, Word(b, p, 2)))
  }

  /** The first k fields of the record at ro, in the order of its index. */
  function ReadFields(b: seq<Byte>, ro: nat, k: nat): Option<seq<Field>> {
    if k == 0 then Some([])
    else if ro + FIELD_INDEX + 4 * k > |b| then None
    else
      var before := ReadFields(b, ro, k - 1);
      var f := ReadField(b, ro + Entry(b, ro + FIELD_INDEX, k - 1));
      if before.None? || f.None? then None else Some(before.value + [f.value])
  }

  /** EventRecord: RecordType, RecordTypeName, RecordText and every FieldAt of the record at ro. */
  function ReadRecord(b: seq<Byte>, ro: nat): Option<Record> {
    if ro + FIELD_INDEX > |b| then None
    else
      var n, nameSize := Word(b, ro + 4, 2), Word(b, ro + 6, 2);
      var name := ReadText(b, ro + FIELD_INDEX + 8 * n, nameSize);
      var text := ReadText(b, ro + FIELD_INDEX + 8 * n + nameSize, Word(b, ro + 8, 2));
      var fields := ReadFields(b, ro, n);
      if name.None? || text.None? || fields.None? then None
      else Some(Record(Word(b, ro, 4), name.value, text.value, fields.value))
  }

  function ReadRecords(b: seq<Byte>, k: nat): Option<seq<Record>> {
    if k == 0 then Some([])
    else if RECORD_INDEX + 4 * k > |b| then None
    else
      var before := ReadRecords(b, k - 1);
      var r := ReadRecord(b, Entry(b, RECORD_INDEX, k - 1));
      if before.None? || r.None? then None else Some(before.value + [r.value])
  }

  /** Event: its header values and every RecordAt. */
  function ReadEvent(b: seq<Byte>): Option<Event> {
    if |b| < RECORD_INDEX then None
    else
      var rs := ReadRecords(b, Word(b, NUM_RECORDS, 2));
      if rs.None? then None
      else Some(Event(Word(b, SEC, 8), Word(b, MSEC, 4), Word(b, SERIAL, 8), Word(b, FLAGS, 4), Signed(Word(b, PID, 4)), rs.value))
  }

  predicate AllFit(fs: seq<Field>) {
    forall j | 0 <= j < |fs| :: Fits(fs[j])
  }

  predicate AllRecordsFit(rs: seq<Record>) {
    forall i | 0 <= i < |rs| :: AllFit(rs[i].fields)
  }

  lemma TextReads(b: seq<Byte>, p: nat, t: seq<Byte>)
    requires TextAt(b, p, t) && |b| < U32
    ensures ReadText(b, p, |t| + 1) == Some(t)
  {
  }

  /** A field reads back as it was added exactly when its sizes and its type fit in 16 bits. */
  lemma FieldRoundTrip(b: seq<Byte>, p: nat, f: Field)
    requires FieldAt(b, p, f) && |b| < U32
    ensures ReadField(b, p) == Some(f) <==> Fits(f)
  {
    hide Word, TextAt, ReadText;
    TextReads(b, p + FIELD_HEADER, f.name);
    if SizesFit(f) {
      TextReads(b, p + FIELD_HEADER + |f.name| + 1, f.raw);
      if f.interp != [] { TextReads(b, p + FIELD_HEADER + |f.name| + 1 + |f.raw| + 1, f.interp); }
    } else {
      TruncatedField(b, p, f);
    }
  }

  /** A stored size that was cut is not the size of the value. */
  lemma TruncatedField(b: seq<Byte>, p: nat, f: Field)
    requires FieldAt(b, p, f) && !SizesFit(f)
    ensures ReadField(b, p) != Some(f)
  {
    hide Word, TextAt;
    var r := ReadField(b, p);
    if r.Some? {
      if |f.raw| + 1 >= U16 {
        assert |r.value.raw| == (Word(b, p + 4, 4) + U32 - 1) % U32;
        assert |r.value.raw| != |f.raw|;
      } else {
        assert |r.value.interp| != |f.interp|;
      }
    }
  }

  lemma {:induction false} FieldsRoundTrip(b: seq<Byte>, ro: nat, r: Record, k: nat)
    requires RecordAt(b, ro, r, |r.fields|) && |b| < U32 && k <= |r.fields|
    ensures ReadFields(b, ro, k) == Some(r.fields[..k]) <==> AllFit(r.fields[..k])
  {
    hide Word, ReadField, FieldAt, Fits, RecordHeaderAt;
    if k > 0 {
      FieldsRoundTrip(b, ro, r, k - 1);
      assert FieldPlaced(b, ro, r, |r.fields|, k - 1);
      FieldRoundTrip(b, ro + Entry(b, ro + FIELD_INDEX, k - 1), r.fields[k - 1]);
      SnocFit(r.fields, k);
      SnocEq(ReadFields(b, ro, k - 1), ReadField(b, ro + Entry(b, ro + FIELD_INDEX, k - 1)), r.fields, k);
    }
  }

  lemma SnocFit(fs: seq<Field>, k: nat)
    requires 0 < k <= |fs|
    ensures AllFit(fs[..k]) <==> AllFit(fs[..k - 1]) && Fits(fs[k - 1])
  {
    forall j | 0 <= j < k - 1 ensures fs[..k - 1][j] == fs[..k][j] {}
    assert fs[..k][k - 1] == fs[k - 1];
  }

  lemma SnocEq<T>(before: Option<seq<T>>, last: Option<T>, ts: seq<T>, k: nat)
    requires 0 < k <= |ts|
    ensures (before.Some? && last.Some? && before.value + [last.value] == ts[..k])
            <==> before == Some(ts[..k - 1]) && last == Some(ts[k - 1])
  {
    assert ts[..k] == ts[..k - 1] + [ts[k - 1]];
    if before.Some? && last.Some? && before.value + [last.value] == ts[..k] {
      assert (before.value + [last.value])[|before.value|] == last.value;
      assert before.value == ts[..k][..k - 1];
    }
  }

  lemma RecordRoundTrip(b: seq<Byte>, ro: nat, r: Record)
    requires RecordAt(b, ro, r, |r.fields|) && |b| < U32
    ensures ReadRecord(b, ro) == Some(r) <==> AllFit(r.fields)
  {
    hide Word, TextAt, ReadText, ReadFields, FieldPlaced, AllFit;
    var n := |r.fields|;
    TextReads(b, ro + FIELD_INDEX + 8 * n, r.name);
    TextReads(b, ro + FIELD_INDEX + 8 * n + |r.name| + 1, r.text);
    FieldsRoundTrip(b, ro, r, n);
    assert r.fields[..n] == r.fields;
  }

  lemma {:induction false} RecordsRoundTrip(b: seq<Byte>, e: Event, k: nat)
    requires EventAt(b, e, |e.records|) && |b| < U32 && k <= |e.records|
    ensures ReadRecords(b, k) == Some(e.records[..k]) <==> AllRecordsFit(e.records[..k])
  {
    hide Word, ReadRecord, RecordAt, AllFit, EventHeaderAt, SortedAt;
    if k > 0 {
      RecordsRoundTrip(b, e, k - 1);
      assert RecordPlaced(b, e.records, |e.records|, k - 1);
      var r := ReadRecord(b, Entry(b, RECORD_INDEX, k - 1));
      RecordRoundTrip(b, Entry(b, RECORD_INDEX, k - 1), e.records[k - 1]);
      SnocRecordsFit(e.records, k);
      SnocEq(ReadRecords(b, k - 1), r, e.records, k);
    }
  }

  lemma SnocRecordsFit(rs: seq<Record>, k: nat)
    requires 0 < k <= |rs|
    ensures AllRecordsFit(rs[..k]) <==> AllRecordsFit(rs[..k - 1]) && AllFit(rs[k - 1].fields)
  {
    forall j | 0 <= j < k - 1 ensures rs[..k - 1][j] == rs[..k][j] {}
    assert rs[..k][k - 1] == rs[k - 1];
  }

  /**
   * The event round trip: a finished event reads back, header values, records and fields in order,
   * exactly when every field's sizes and type fit in 16 bits.
   */
  lemma EventRoundTrip(b: seq<Byte>, e: Event)
    requires EventAt(b, e, |e.records|) && |b| < U32
    ensures ReadEvent(b) == Some(e) <==> AllRecordsFit(e.records)
  {
    hide Word, ReadRecords, RecordPlaced, AllRecordsFit;
    RecordsRoundTrip(b, e, |e.records|);
    assert e.records[..|e.records|] == e.records;
  }

  // ---------------------------------------------------------------- FieldByName

  /** A linear scan: some field of the record bears this name, as C strings see names. */
  ghost predicate HasName(r: Record, name: seq<Byte>) {
    exists j | 0 <= j < |r.fields| :: Named(r.fields[j], name)
  }

  ghost predicate Named(f: Field, name: seq<Byte>) {
    CPrefix(f.name) == name
  }

  /** EventRecord::FieldByName: the place in the sorted index of a field of that name. */
  method FieldByName(b: seq<Byte>, ro: nat, name: seq<Byte>, ghost r: Record) returns (found: Option<nat>)
    requires 0 < |r.fields| && RecordAt(b, ro, r, |r.fields|) && SortedAt(b, ro, |r.fields|)
    ensures found.Some? <==> HasName(r, name)
    ensures found.Some? ==>
              found.value < |r.fields| && exists j | 0 <= j < |r.fields| ::
                Named(r.fields[j], name) && FieldPlaced(b, ro, r, |r.fields|, j)
                && Entry(b, ro + FIELD_INDEX + 4 * |r.fields|, found.value) == Entry(b, ro + FIELD_INDEX, j)
  {
    hide CPrefix, CString, Names.NotAfter, RecordHeader, FieldPlaced, Entry;
    var n := Word(b, ro + 4, 2);
    var xs := Index(b, ro + FIELD_INDEX + 4 * n, n);
    var hit, at := FindName(b, ro + FIELD_HEADER, xs, name);
    if hit {
      found := Some(at);
      ghost var j := SortedField(b, ro, n, at);
      IndexedField(b, ro, r, j);
      assert Named(r.fields[j], name);
    } else {
      found := None;
      forall j | 0 <= j < n ensures !Named(r.fields[j], name) {
        IndexedField(b, ro, r, j);
        ghost var i := SortedPlace(b, ro, n, j);
      }
    }
  }

  /** Every field has a place in the sorted index. */
  lemma SortedPlace(b: seq<Byte>, ro: nat, n: nat, j: nat) returns (i: nat)
    requires SortedAt(b, ro, n) && j < n
    ensures i < n && Index(b, ro + FIELD_INDEX + 4 * n, n)[i] == Index(b, ro + FIELD_INDEX, n)[j]
  {
    hide Index, NamesSorted;
    i := InIndex(Index(b, ro + FIELD_INDEX, n), Index(b, ro + FIELD_INDEX + 4 * n, n), j);
  }

  // ---------------------------------------------------------------- Validate

  /** What Validate returns; Fault when it would read outside the buffer. */
  datatype Verdict = Code(n: nat) | Fault

  /** Validate's checks of a record's header, sums in 32 bits. */
  function RecordCode(b: seq<Byte>, ro: nat): Verdict {
    if |b| <= ro then Code(3)
    else if |b| <= (ro + FIELD_INDEX) % U32 then Code(4)
    else if ro + FIELD_INDEX > |b| then Fault
    else
      var n, nameSize, textSize := Word(b, ro + 4, 2), Word(b, ro + 6, 2), Word(b, ro + 8, 2);
      if |b| <= (ro + FIELD_INDEX) % U32 + 8 * n then Code(5)
      else if |b| <= (ro + FIELD_INDEX + 8 * n + nameSize) % U32 then Code(6)
      else if |b| <= (ro + FIELD_INDEX + 8 * n + nameSize + textSize) % U32 then Code(7)
      else Code(0)
  }

  /** Validate's checks of a field: the record's own offset does not enter into the sums. */
  function FieldCode(b: seq<Byte>, ro: nat, fo: nat): Verdict {
    if |b| <= fo then Code(8)
    else if |b| <= (fo + FIELD_HEADER) % U32 then Code(9)
    else if ro + fo + FIELD_HEADER > |b| then Fault
    else
      var nameSize, rawSize, interpSize := Word(b, ro + fo + 2, 2), Word(b, ro + fo + 4, 4), Word(b, ro + fo + 8, 4);
      if |b| <= (fo + FIELD_HEADER + nameSize) % U32 then Code(10)
      else if |b| <= (fo + FIELD_HEADER + nameSize + rawSize) % U32 then Code(11)
      else if |b| <= (fo + FIELD_HEADER + nameSize + rawSize + interpSize) % U32 then Code(12)
      else Code(0)
  }

  /** What is said of the field at place j of the index. */
  function FieldVerdict(b: seq<Byte>, ro: nat, j: nat): Verdict {
    if ro + FIELD_INDEX + 4 * j + 4 > |b| then Fault else FieldCode(b, ro, Entry(b, ro + FIELD_INDEX, j))
  }

  ghost predicate FieldSane(b: seq<Byte>, ro: nat, j: nat) {
    FieldVerdict(b, ro, j) == Code(0)
  }

  ghost predicate RecordSane(b: seq<Byte>, ro: nat) {
    && RecordCode(b, ro) == Code(0)
    && forall j | 0 <= j < Word(b, ro + 4, 2) :: FieldSane(b, ro, j)
  }

  ghost predicate Sane(b: seq<Byte>) {
    && RECORD_INDEX < |b| && RECORD_INDEX + 4 * Word(b, NUM_RECORDS, 2) < |b|
    && forall i | 0 <= i < Word(b, NUM_RECORDS, 2) :: RecordSane(b, Entry(b, RECORD_INDEX, i))
  }

  /** r is what is wrong with the first field that is not sane, which is field j. */
  ghost predicate FirstBadField(b: seq<Byte>, ro: nat, j: nat, r: Verdict) {
    && RecordCode(b, ro) == Code(0) && j < Word(b, ro + 4, 2)
    && (forall k | 0 <= k < j :: FieldSane(b, ro, k)) && r == FieldVerdict(b, ro, j) != Code(0)
  }

  /** What is wrong with a record: with its header, or else with its first bad field. */
  ghost predicate BadRecord(b: seq<Byte>, ro: nat, r: Verdict) {
    if RecordCode(b, ro) != Code(0) then r == RecordCode(b, ro) else exists j: nat :: FirstBadField(b, ro, j, r)
  }

  /** r is what is wrong with the first record that is not sane, which is record i. */
  ghost predicate FirstBadRecord(b: seq<Byte>, i: nat, r: Verdict) {
    && RECORD_INDEX < |b| && i < Word(b, NUM_RECORDS, 2) && RECORD_INDEX + 4 * Word(b, NUM_RECORDS, 2) < |b|
    && (forall k | 0 <= k < i :: RecordSane(b, Entry(b, RECORD_INDEX, k)))
    && BadRecord(b, Entry(b, RECORD_INDEX, i), r)
  }

  method Validate(b: seq<Byte>) returns (r: Verdict)
    ensures r == Code(0) <==> Sane(b)
    ensures r == Code(1) <==> |b| <= RECORD_INDEX
    ensures r == Code(2) <==> RECORD_INDEX < |b| <= RECORD_INDEX + 4 * Word(b, NUM_RECORDS, 2)
    ensures r == Code(0) || r == Code(1) || r == Code(2) || exists i: nat :: FirstBadRecord(b, i, r)
  {
    hide Word, FieldCode, RecordCode, Entry, BadRecord, RecordSane;
    if |b| <= RECORD_INDEX {
      return Code(1);
    }
    var records := Word(b, NUM_RECORDS, 2);
    if |b| <= RECORD_INDEX + 4 * records {
      return Code(2);
    }
    for i := 0 to records
      invariant forall k | 0 <= k < i :: RecordSane(b, Entry(b, RECORD_INDEX, k))
    {
      r := ValidateRecord(b, Entry(b, RECORD_INDEX, i));
      if r != Code(0) {
        assert FirstBadRecord(b, i, r);
        return;
      }
    }
    r := Code(0);
  }

  method ValidateRecord(b: seq<Byte>, ro: nat) returns (r: Verdict)
    ensures r == Code(0) <==> RecordSane(b, ro)
    ensures r == Code(0) || (BadRecord(b, ro, r) && r != Code(1) && r != Code(2))
  {
    hide Word, FieldCode, Entry;
    r := RecordCode(b, ro);
    if r != Code(0) {
      return;
    }
    var fields := Word(b, ro + 4, 2);
    for j := 0 to fields
      invariant r == Code(0) && forall k | 0 <= k < j :: FieldSane(b, ro, k)
    {
      if ro + FIELD_INDEX + 4 * j + 4 > |b| {
        assert !FieldSane(b, ro, j);
        assert FirstBadField(b, ro, j, Fault);
        return Fault;
      }
      r := FieldCode(b, ro, Entry(b, ro + FIELD_INDEX, j));
      if r != Code(0) {
        FieldCodes(b, ro, Entry(b, ro + FIELD_INDEX, j));
        assert !FieldSane(b, ro, j);
        assert FirstBadField(b, ro, j, r);
        return;
      }
    }
  }

  lemma FieldCodes(b: seq<Byte>, ro: nat, fo: nat)
    ensures FieldCode(b, ro, fo) != Code(1) && FieldCode(b, ro, fo) != Code(2)
  {
    hide Word;
  }

  /** Every finished event is valid, whether or not its sizes were cut. */
  lemma FinishedIsSane(b: seq<Byte>, e: Event)
    requires EventAt(b, e, |e.records|) && |b| < U32
    ensures Sane(b)
  {
    hide Word, RecordAt, SortedAt, RecordSane;
    var n := |e.records|;
    forall i | 0 <= i < n ensures RECORD_INDEX + 4 * n < |b| && RecordSane(b, Entry(b, RECORD_INDEX, i)) {
      assert RecordPlaced(b, e.records, n, i);
      RecordsEndMono(n, e.records, i);
      FinishedRecordIsSane(b, Entry(b, RECORD_INDEX, i), e.records[i]);
    }
    assert RECORD_INDEX + 4 * n < |b| by { assert RecordPlaced(b, e.records, n, 0); RecordsEndMono(n, e.records, 0); }
  }

  lemma FinishedRecordIsSane(b: seq<Byte>, ro: nat, r: Record)
    requires RecordAt(b, ro, r, |r.fields|) && 0 < |r.fields| && 0 < ro && |b| < U32
    ensures RecordSane(b, ro)
  {
    hide Word, TextAt, FieldAt, FieldCode, FieldPlaced;
    var n := |r.fields|;
    FieldsEndMono(RecordHeader(r, n), r.fields, 0);
    forall j | 0 <= j < n ensures FieldSane(b, ro, j) {
      PlacedIsSane(b, ro, r, j);
    }
  }

  lemma PlacedIsSane(b: seq<Byte>, ro: nat, r: Record, j: nat)
    requires RecordAt(b, ro, r, |r.fields|) && j < |r.fields| && 0 < ro && |b| < U32
    ensures FieldSane(b, ro, j)
  {
    hide Word, FieldAt, FieldCode, FieldsEnd, RecordHeader;
    assert FieldPlaced(b, ro, r, |r.fields|, j);
    FieldIsSane(b, ro, Entry(b, ro + FIELD_INDEX, j), r.fields[j]);
  }

  lemma FieldIsSane(b: seq<Byte>, ro: nat, fo: nat, f: Field)
    requires FieldAt(b, ro + fo, f) && 0 < ro && |b| < U32
    ensures FieldCode(b, ro, fo) == Code(0)
  {
    hide Word, TextAt;
    assert (|f.raw| + 1) % U16 <= |f.raw| + 1 && InterpSize(f) % U16 <= InterpSize(f);
  }
}
