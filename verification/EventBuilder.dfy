/** EventBuilder of Event.cpp over the growing buffer of EventQueue.h. */
module EventBuilder {
  import opened Bytes
  import opened Names
  import opened EventFormat
  import opened Wrappers

  /** How a call ends: done, or the exception it throws. */
  datatype Outcome =
    | Done | NotStarted | AlreadyStarted | NoRecords | NoFields | NameTooLong | TextTooLong
    | RawTooLong | InterpTooLong | TooManyFields | WrongCount

  const VERSION_UNIT := 0x100_0000

  /** What a buffer holds while an event is built: finished records, and perhaps one with nf fields declared. */
  ghost predicate Built(b: seq<Byte>, e: Event, n: nat, open: Option<Record>, nf: nat) {
    && EventAt(b, e, n) && Word(b, 0, 4) == VERSION_UNIT
    && (open.Some? ==>
          && 0 < nf && |e.records| < n
          && Word(b, RECORD_INDEX + 4 * |e.records|, 4) == RecordsEnd(n, e.records)
          && RecordAt(b, RecordsEnd(n, e.records), open.value, nf))
  }

  /** Where what has been built so far ends. */
  ghost function BuiltEnd(e: Event, n: nat, open: Option<Record>, nf: nat): nat {
    RecordsEnd(n, e.records) + if open.Some? then FieldsEnd(RecordHeader(open.value, nf), open.value.fields) else 0
  }

  // ---------------------------------------------------------------- single writes

  lemma WordsFit(n: nat)
    ensures n % Pow256(4) == n % U32 && n % Pow256(2) == n % U16 && n % Pow256(8) == n % 0x1_0000_0000_0000_0000
  {
    Widths();
  }

  /** Writing a number that fits. */
  lemma FittingPut(b: seq<Byte>, p: nat, n: nat, k: nat)
    requires p + k <= |b| && ((k == 2 && n < U16) || (k == 4 && n < U32) || (k == 8 && n < 0x1_0000_0000_0000_0000))
    ensures var r := PutWord(b, p, n, k);
            Word(r, p, k) == n && Same(b, r, 0, p) && Same(b, r, p + k, |b|)
  {
    hide Word, PutWord, Same;
    WordPut(b, p, n, k);
    WordsFit(n);
  }

  lemma SameIn(b: seq<Byte>, c: seq<Byte>, lo: nat, hi: nat, lo': nat, hi': nat)
    requires Same(b, c, lo, hi) && lo <= lo' && hi' <= hi
    ensures Same(b, c, lo', hi')
  {
  }

  // ---------------------------------------------------------------- the event header

  /** BeginEvent's writes, in its order; the flags keep whatever the buffer held. */
  function Begun(b: seq<Byte>, sec: nat, msec: nat, serial: nat, n: nat): (r: seq<Byte>)
    requires RECORD_INDEX <= |b|
    ensures |r| == |b|
  {
    var v := PutWord(b, 0, VERSION_UNIT + Word(b, 0, 4) % VERSION_UNIT, 4);
    var s := PutWord(v, 0, Word(v, 0, 4) / VERSION_UNIT * VERSION_UNIT, 4);
    var t := PutWord(PutWord(PutWord(s, SEC, sec, 8), MSEC, msec, 4), SERIAL, serial, 8);
    PutWord(PutWord(t, NUM_RECORDS, n, 2), PID, U32 - 1, 4)
  }

  lemma BegunReads(b: seq<Byte>, sec: nat, msec: nat, serial: nat, n: nat)
    requires RECORD_INDEX + 4 * n <= |b| && 0 < n < U16
    requires sec < 0x1_0000_0000_0000_0000 && msec < U32 && serial < 0x1_0000_0000_0000_0000
    ensures Built(Begun(b, sec, msec, serial, n), Event(sec, msec, serial, Word(b, FLAGS, 4), -1, []), n, None, 0)
  {
    hide Word, PutWord;
    var v := PutWord(b, 0, VERSION_UNIT + Word(b, 0, 4) % VERSION_UNIT, 4);
    FittingPut(b, 0, VERSION_UNIT + Word(b, 0, 4) % VERSION_UNIT, 4);
    assert Word(v, 0, 4) / VERSION_UNIT == 1;
    var s := PutWord(v, 0, VERSION_UNIT, 4);
    FittingPut(v, 0, VERSION_UNIT, 4);
    var t := PutWord(s, SEC, sec, 8);
    FittingPut(s, SEC, sec, 8);
    var u := PutWord(t, MSEC, msec, 4);
    FittingPut(t, MSEC, msec, 4);
    var w := PutWord(u, SERIAL, serial, 8);
    FittingPut(u, SERIAL, serial, 8);
    var x := PutWord(w, NUM_RECORDS, n, 2);
    FittingPut(w, NUM_RECORDS, n, 2);
    var y := PutWord(x, PID, U32 - 1, 4);
    FittingPut(x, PID, U32 - 1, 4);
    assert y == Begun(b, sec, msec, serial, n);
    WordSame(s, y, 0, 4);
    WordSame(t, y, SEC, 8);
    WordSame(u, y, MSEC, 4);
    WordSame(w, y, SERIAL, 8);
    WordSame(x, y, NUM_RECORDS, 2);
    WordSame(b, y, FLAGS, 4);
  }

  /** Overwriting the flags or the process id. */
  lemma HeaderSet(b: seq<Byte>, e: Event, n: nat, open: Option<Record>, nf: nat, p: nat, v: nat)
    requires Built(b, e, n, open, nf) && v < U32 && (p == FLAGS || p == PID)
    ensures Built(PutWord(b, p, v, 4), if p == FLAGS then e.(flags := v) else e.(pid := Signed(v)), n, open, nf)
  {
    hide Word, PutWord, RecordPlaced, RecordAt, RecordsEnd;
    var c := PutWord(b, p, v, 4);
    WordPut(b, p, v, 4);
    WordsFit(v);
    WordSame(b, c, 0, 4);
    WordSame(b, c, SEC, 8);
    WordSame(b, c, MSEC, 4);
    WordSame(b, c, SERIAL, 8);
    WordSame(b, c, NUM_RECORDS, 2);
    if p == FLAGS { WordSame(b, c, PID, 4); } else { WordSame(b, c, FLAGS, 4); }
    forall i | 0 <= i < |e.records| ensures RecordPlaced(c, e.records, n, i) {
      assert RecordPlaced(b, e.records, n, i);
      RecordPlacedSame(b, c, e.records, n, i);
    }
    if open.Some? { OpenSame(b, c, e, n, open.value, nf); }
  }

  lemma OpenSame(b: seq<Byte>, c: seq<Byte>, e: Event, n: nat, r: Record, nf: nat)
    requires |e.records| < n && RECORD_INDEX + 4 * n <= |b|
    requires Word(b, RECORD_INDEX + 4 * |e.records|, 4) == RecordsEnd(n, e.records)
    requires RecordAt(b, RecordsEnd(n, e.records), r, nf) && Same(b, c, RECORD_INDEX, |b|)
    ensures RECORD_INDEX + 4 * n <= |c| && Word(c, RECORD_INDEX + 4 * |e.records|, 4) == RecordsEnd(n, e.records)
    ensures RecordAt(c, RecordsEnd(n, e.records), r, nf)
  {
    hide Word, FieldPlaced, RecordHeaderAt;
    WordSame(b, c, RECORD_INDEX + 4 * |e.records|, 4);
    RecordSame(b, c, RecordsEnd(n, e.records), r, nf);
  }

  // ---------------------------------------------------------------- records

  /** BeginRecord's writes, in its order: numbers, then texts. */
  function RecordBegun(b: seq<Byte>, at: nat, ro: nat, r: Record, n: nat): (c: seq<Byte>)
    requires at + 4 <= ro && ro + RecordHeader(r, n) <= |b|
    ensures |c| == |b|
  {
    TwoTexts(RecordWords(b, at, ro, r, n), ro + FIELD_INDEX + 8 * n, r.name, r.text)
  }

  function RecordWords(b: seq<Byte>, at: nat, ro: nat, r: Record, n: nat): (c: seq<Byte>)
    requires at + 4 <= ro && ro + FIELD_INDEX <= |b|
    ensures |c| == |b|
  {
    var i := PutWord(b, at, ro, 4);
    PutWord(PutWord(PutWord(PutWord(i, ro, r.kind, 4), ro + 4, n, 2), ro + 6, |r.name| + 1, 2), ro + 8, |r.text| + 1, 2)
  }

  function TwoTexts(b: seq<Byte>, p: nat, name: seq<Byte>, text: seq<Byte>): (c: seq<Byte>)
    requires p + |name| + 1 + |text| < |b|
    ensures |c| == |b|
  {
    PutText(PutText(b, p, name), p + |name| + 1, text)
  }

  lemma TextsRead(b: seq<Byte>, p: nat, name: seq<Byte>, text: seq<Byte>)
    requires p + |name| + 1 + |text| < |b|
    ensures var c := TwoTexts(b, p, name, text);
            && TextAt(c, p, name) && TextAt(c, p + |name| + 1, text)
            && Same(b, c, 0, p) && Same(b, c, p + |name| + 1 + |text| + 1, |b|)
  {
    hide PutText, TextAt;
    var c := PutText(b, p, name);
    TextPut(b, p, name);
    TextPut(c, p + |name| + 1, text);
    TextSame(c, PutText(c, p + |name| + 1, text), p, name);
  }

  lemma RecordWordsRead(b: seq<Byte>, at: nat, ro: nat, r: Record, n: nat)
    requires at + 4 <= ro && ro + FIELD_INDEX <= |b|
    requires 0 < n < U16 && r.kind < U32 && ro < U32 && |r.name| + 1 < U16 && |r.text| + 1 < U16
    ensures var c := RecordWords(b, at, ro, r, n);
            && Same(b, c, 0, at) && Same(b, c, at + 4, ro) && Word(c, at, 4) == ro
            && Word(c, ro, 4) == r.kind && Word(c, ro + 4, 2) == n
            && Word(c, ro + 6, 2) == |r.name| + 1 && Word(c, ro + 8, 2) == |r.text| + 1
  {
    hide Word, PutWord;
    var i := PutWord(b, at, ro, 4);
    FittingPut(b, at, ro, 4);
    var j := PutWord(i, ro, r.kind, 4);
    FittingPut(i, ro, r.kind, 4);
    var k := PutWord(j, ro + 4, n, 2);
    FittingPut(j, ro + 4, n, 2);
    var l := PutWord(k, ro + 6, |r.name| + 1, 2);
    FittingPut(k, ro + 6, |r.name| + 1, 2);
    var m := PutWord(l, ro + 8, |r.text| + 1, 2);
    FittingPut(l, ro + 8, |r.text| + 1, 2);
    WordSame(i, m, at, 4);
    WordSame(j, m, ro, 4);
    WordSame(k, m, ro + 4, 2);
    WordSame(l, m, ro + 6, 2);
  }

  lemma RecordBegunReads(b: seq<Byte>, at: nat, ro: nat, r: Record, n: nat)
    requires at + 4 <= ro && ro + RecordHeader(r, n) <= |b| && r.fields == []
    requires 0 < n < U16 && r.kind < U32 && ro < U32 && |r.name| + 1 < U16 && |r.text| + 1 < U16
    ensures var c := RecordBegun(b, at, ro, r, n);
            && Same(b, c, 0, at) && Same(b, c, at + 4, ro) && Word(c, at, 4) == ro
            && RecordAt(c, ro, r, n)
  {
    hide Word, RecordWords, TwoTexts, TextAt;
    RecordWordsRead(b, at, ro, r, n);
    var w := RecordWords(b, at, ro, r, n);
    TextsRead(w, ro + FIELD_INDEX + 8 * n, r.name, r.text);
    var c := TwoTexts(w, ro + FIELD_INDEX + 8 * n, r.name, r.text);
    WordSame(w, c, at, 4);
    WordSame(w, c, ro, 4);
    WordSame(w, c, ro + 4, 2);
    WordSame(w, c, ro + 6, 2);
    WordSame(w, c, ro + 8, 2);
  }

  /** Starting a record keeps what has been built and opens a record without fields. */
  lemma BeginStep(b: seq<Byte>, e: Event, n: nat, r: Record, nf: nat)
    requires Built(b, e, n, None, 0) && |e.records| < n && r.fields == []
    requires 0 < nf < U16 && r.kind < U32 && |r.name| + 1 < U16 && |r.text| + 1 < U16
    requires RecordsEnd(n, e.records) + RecordHeader(r, nf) <= |b| < U32
    ensures Built(RecordBegun(b, RECORD_INDEX + 4 * |e.records|, RecordsEnd(n, e.records), r, nf), e, n, Some(r), nf)
  {
    hide Word, RecordBegun, RecordHeader, RecordAt, EventAt;
    var at, ro := RECORD_INDEX + 4 * |e.records|, RecordsEnd(n, e.records);
    var c := RecordBegun(b, at, ro, r, nf);
    RecordBegunReads(b, at, ro, r, nf);
    WordSame(b, c, 0, 4);
    EventSame(b, c, e, n);
  }

  // ---------------------------------------------------------------- fields

  /** AddField's writes of the field itself, in its order: numbers, then texts. */
  function FieldAdded(b: seq<Byte>, p: nat, f: Field): (c: seq<Byte>)
    requires Accepted(f) && p + FieldSize(f) <= |b|
    ensures |c| == |b|
  {
    FieldTexts(FieldWords(b, p, f), p + FIELD_HEADER, f)
  }

  function FieldWords(b: seq<Byte>, p: nat, f: Field): (c: seq<Byte>)
    requires p + FIELD_HEADER <= |b|
    ensures |c| == |b|
  {
    var w := PutWord(PutWord(b, p + 2, |f.name| + 1, 2), p + 4, (|f.raw| + 1) % U16, 4);
    PutWord(PutWord(w, p + 8, InterpSize(f) % U16, 4), p, f.kind % U16, 2)
  }

  function FieldTexts(b: seq<Byte>, p: nat, f: Field): (c: seq<Byte>)
    requires p + |f.name| + 1 + |f.raw| + 1 + InterpSize(f) <= |b|
    ensures |c| == |b|
  {
    var y := TwoTexts(b, p, f.name, f.raw);
    if f.interp == [] then y else PutText(y, p + |f.name| + 1 + (|f.raw| + 1) % U16, f.interp)
  }

  lemma FieldWordsRead(b: seq<Byte>, p: nat, f: Field)
    requires Accepted(f) && p + FIELD_HEADER <= |b|
    ensures var c := FieldWords(b, p, f);
            && Same(b, c, 0, p) && Same(b, c, p + FIELD_HEADER, |b|)
            && Word(c, p, 2) == f.kind % U16 && Word(c, p + 2, 2) == |f.name| + 1
            && Word(c, p + 4, 4) == (|f.raw| + 1) % U16 && Word(c, p + 8, 4) == InterpSize(f) % U16
  {
    hide Word, PutWord;
    var raw, interp := (|f.raw| + 1) % U16, InterpSize(f) % U16;
    var i := PutWord(b, p + 2, |f.name| + 1, 2);
    WordPut(b, p + 2, |f.name| + 1, 2);
    WordsFit(|f.name| + 1);
    var j := PutWord(i, p + 4, raw, 4);
    WordPut(i, p + 4, raw, 4);
    WordsFit(raw);
    var k := PutWord(j, p + 8, interp, 4);
    WordPut(j, p + 8, interp, 4);
    WordsFit(interp);
    var l := PutWord(k, p, f.kind % U16, 2);
    WordPut(k, p, f.kind % U16, 2);
    WordsFit(f.kind % U16);
    WordSame(i, l, p + 2, 2);
    WordSame(j, l, p + 4, 4);
    WordSame(k, l, p + 8, 4);
  }

  lemma FieldTextsRead(l: seq<Byte>, p: nat, f: Field)
    requires p + |f.name| + 1 + |f.raw| + 1 + InterpSize(f) <= |l|
    ensures var c := FieldTexts(l, p, f);
            var o := p + |f.name| + 1;
            && Same(l, c, 0, p) && Same(l, c, o + |f.raw| + 1 + InterpSize(f), |l|)
            && TextAt(c, p, f.name)
            && (SizesFit(f) ==> TextAt(c, o, f.raw))
            && (SizesFit(f) && f.interp != [] ==> TextAt(c, o + |f.raw| + 1, f.interp))
  {
    hide PutText, TextAt, TwoTexts;
    var o := p + |f.name| + 1;
    var cut := (|f.raw| + 1) % U16;
    assert cut <= |f.raw| + 1;
    var y := TwoTexts(l, p, f.name, f.raw);
    TextsRead(l, p, f.name, f.raw);
    if f.interp != [] {
      var c := PutText(y, o + cut, f.interp);
      TextPut(y, o + cut, f.interp);
      TextSame(y, c, p, f.name);
      if SizesFit(f) { TextSame(y, c, o, f.raw); }
    }
  }

  lemma FieldAddedReads(b: seq<Byte>, p: nat, f: Field)
    requires Accepted(f) && p + FieldSize(f) <= |b|
    ensures var c := FieldAdded(b, p, f);
            FieldAt(c, p, f) && Same(b, c, 0, p) && Same(b, c, p + FieldSize(f), |b|)
  {
    hide Word, FieldWords, FieldTexts, TextAt;
    FieldWordsRead(b, p, f);
    var w := FieldWords(b, p, f);
    FieldTextsRead(w, p + FIELD_HEADER, f);
    var c := FieldTexts(w, p + FIELD_HEADER, f);
    WordSame(w, c, p, 2);
    WordSame(w, c, p + 2, 2);
    WordSame(w, c, p + 4, 4);
    WordSame(w, c, p + 8, 4);
  }

  /** The field and its entry in the record's index. */
  lemma FieldIndexed(b: seq<Byte>, p: nat, at: nat, fo: nat, f: Field)
    requires Accepted(f) && at + 4 <= p && p + FieldSize(f) <= |b| && fo < U32
    ensures var d := PutWord(FieldAdded(b, p, f), at, fo, 4);
            Same(b, d, 0, at) && Same(b, d, at + 4, p) && Word(d, at, 4) == fo && FieldAt(d, p, f)
  {
    hide Word, PutWord, FieldAdded, FieldAt;
    var c := FieldAdded(b, p, f);
    FieldAddedReads(b, p, f);
    var d := PutWord(c, at, fo, 4);
    WordPut(c, at, fo, 4);
    WordsFit(fo);
    FieldSame(c, d, p, f);
  }

  /** Writes behind the finished records keep them, the record's own place and the version. */
  lemma TailWrite(b: seq<Byte>, d: seq<Byte>, e: Event, n: nat, at: nat)
    requires EventAt(b, e, n) && |e.records| < n && RecordsEnd(n, e.records) <= at && Same(b, d, 0, at)
    ensures EventAt(d, e, n) && Word(d, 0, 4) == Word(b, 0, 4)
    ensures RECORD_INDEX + 4 * n <= |d| && RECORD_INDEX + 4 * n <= |b|
    ensures Word(d, RECORD_INDEX + 4 * |e.records|, 4) == Word(b, RECORD_INDEX + 4 * |e.records|, 4)
  {
    hide Word, EventAt, RecordsEnd, Same;
    var x := RECORD_INDEX + 4 * |e.records|;
    SameIn(b, d, 0, at, SEC, x);
    SameIn(b, d, 0, at, RECORD_INDEX + 4 * n, RecordsEnd(n, e.records));
    EventSame(b, d, e, n);
    SameIn(b, d, 0, at, 0, 4);
    WordSame(b, d, 0, 4);
    SameIn(b, d, 0, at, x, x + 4);
    WordSame(b, d, x, 4);
    SameIn(b, d, 0, at, 0, RECORD_INDEX + 4 * n);
    SameBounds(b, d, 0, RECORD_INDEX + 4 * n);
  }

  lemma SameBounds(b: seq<Byte>, c: seq<Byte>, lo: nat, hi: nat)
    requires Same(b, c, lo, hi)
    ensures hi <= |b| && hi <= |c|
  {
  }

  /** A field and its index entry extend the record. */
  lemma FieldJoins(b: seq<Byte>, d: seq<Byte>, ro: nat, r: Record, nf: nat, f: Field)
    requires RecordAt(b, ro, r, nf) && |r.fields| < nf
    requires var at, fo := ro + FIELD_INDEX + 4 * |r.fields|, FieldsEnd(RecordHeader(r, nf), r.fields);
             && at + 4 <= ro + FIELD_INDEX + 8 * nf
             && Same(b, d, 0, at) && Same(b, d, at + 4, ro + fo)
             && at + 4 <= |d| && Word(d, at, 4) == fo && FieldAt(d, ro + fo, f)
    ensures RecordAt(d, ro, r.(fields := r.fields + [f]), nf)
  {
    hide Word, RecordAt, FieldAt, RecordHeader, FieldsEnd, Same;
    var at, fo := ro + FIELD_INDEX + 4 * |r.fields|, FieldsEnd(RecordHeader(r, nf), r.fields);
    SameIn(b, d, 0, at, ro, at);
    SameIn(b, d, at + 4, ro + fo, ro + FIELD_INDEX + 8 * nf, ro + fo);
    RecordSame(b, d, ro, r, nf);
    SnocField(d, ro, r, nf, f);
  }

  lemma AddStep(b: seq<Byte>, e: Event, n: nat, r: Record, nf: nat, f: Field)
    requires Built(b, e, n, Some(r), nf) && |r.fields| < nf && Accepted(f)
    requires BuiltEnd(e, n, Some(r), nf) + FieldSize(f) <= |b| < U32
    ensures var ro, fo := RecordsEnd(n, e.records), FieldsEnd(RecordHeader(r, nf), r.fields);
            Built(PutWord(FieldAdded(b, ro + fo, f), ro + FIELD_INDEX + 4 * |r.fields|, fo, 4), e, n,
                  Some(r.(fields := r.fields + [f])), nf)
  {
    hide Word, PutWord, FieldAdded, EventAt, RecordAt, FieldAt, RecordHeader, FieldsEnd, RecordsEnd, FieldSize, Same;
    FieldBounds(b, e, n, r, nf);
    var ro, fo := RecordsEnd(n, e.records), FieldsEnd(RecordHeader(r, nf), r.fields);
    var at := ro + FIELD_INDEX + 4 * |r.fields|;
    FieldIndexed(b, ro + fo, at, fo, f);
    var d := PutWord(FieldAdded(b, ro + fo, f), at, fo, 4);
    TailWrite(b, d, e, n, at);
    FieldJoins(b, d, ro, r, nf, f);
  }

  lemma SnocField(b: seq<Byte>, ro: nat, r: Record, nf: nat, f: Field)
    requires RecordAt(b, ro, r, nf) && |r.fields| < nf
    requires ro + FIELD_INDEX + 4 * |r.fields| + 4 <= |b|
    requires Word(b, ro + FIELD_INDEX + 4 * |r.fields|, 4) == FieldsEnd(RecordHeader(r, nf), r.fields)
    requires FieldAt(b, ro + FieldsEnd(RecordHeader(r, nf), r.fields), f)
    ensures RecordAt(b, ro, r.(fields := r.fields + [f]), nf)
    ensures FieldsEnd(RecordHeader(r, nf), r.fields + [f]) == FieldsEnd(RecordHeader(r, nf), r.fields) + FieldSize(f)
  {
    hide Word, TextAt;
    var s := r.(fields := r.fields + [f]);
    SnocEnd(r, nf, f);
    assert RecordHeaderAt(b, ro, s, nf);
    forall j | 0 <= j < |s.fields| ensures FieldPlaced(b, ro, s, nf, j) {
      if j < |r.fields| {
        assert FieldPlaced(b, ro, r, nf, j);
        assert s.fields[..j] == r.fields[..j];
      } else {
        assert s.fields[..j] == r.fields;
      }
    }
  }

  // ---------------------------------------------------------------- the sorted index

  /** memcpy of an index, entry by entry. */
  method CopyIndex(b: seq<Byte>, p: nat, xs: seq<nat>) returns (c: seq<Byte>)
    requires p + 4 * |xs| <= |b| && forall i | 0 <= i < |xs| :: xs[i] < U32
    ensures |c| == |b| && Index(c, p, |xs|) == xs && Same(b, c, 0, p) && Same(b, c, p + 4 * |xs|, |b|)
  {
    hide Word, PutWord;
    c := b;
    for i := 0 to |xs|
      invariant |c| == |b| && Same(b, c, 0, p) && Same(b, c, p + 4 * |xs|, |b|)
      invariant forall j | 0 <= j < i :: Entry(c, p, j) == xs[j]
    {
      ghost var was := c;
      WordPut(c, p + 4 * i, xs[i], 4);
      WordsFit(xs[i]);
      c := PutWord(c, p + 4 * i, xs[i], 4);
      forall j | 0 <= j < i ensures Entry(c, p, j) == xs[j] {
        WordSame(was, c, p + 4 * j, 4);
      }
    }
  }

  lemma RecordInBuffer(b: seq<Byte>, ro: nat, r: Record)
    requires RecordAt(b, ro, r, |r.fields|)
    ensures ro + FIELD_INDEX + 8 * |r.fields| <= ro + RecordSize(r) <= |b|
  {
  }

  /** The offsets EndRecord sorts lead to names in the buffer. */
  lemma IndexIsUsable(b: seq<Byte>, ro: nat, r: Record)
    requires RecordAt(b, ro, r, |r.fields|) && |b| < U32
    ensures ro + FIELD_INDEX + 8 * |r.fields| <= |b|
    ensures var xs := Index(b, ro + FIELD_INDEX, |r.fields|);
            AllIn(b, ro + FIELD_HEADER, xs) && forall i | 0 <= i < |xs| :: xs[i] < U32
  {
    hide Index, RecordAt, CString;
    RecordInBuffer(b, ro, r);
    var xs := Index(b, ro + FIELD_INDEX, |r.fields|);
    forall i | 0 <= i < |xs| ensures ro + FIELD_HEADER + xs[i] <= |b| {
      IndexedField(b, ro, r, i);
    }
  }

  /** Writing the sorted offsets completes the record. */
  lemma SortedWritten(b: seq<Byte>, c: seq<Byte>, ro: nat, r: Record, ys: seq<nat>)
    requires RecordAt(b, ro, r, |r.fields|) && |c| == |b|
    requires var n := |r.fields|;
             && multiset(ys) == multiset(Index(b, ro + FIELD_INDEX, n)) && |ys| == n && NamesSorted(b, ro, ys)
             && Same(b, c, 0, ro + FIELD_INDEX + 4 * n) && Same(b, c, ro + FIELD_INDEX + 8 * n, |b|)
             && Index(c, ro + FIELD_INDEX + 4 * n, n) == ys
    ensures RecordAt(c, ro, r, |r.fields|) && SortedAt(c, ro, |r.fields|)
  {
    hide CString, NamesSorted, RecordAt, Index, TextAt, RecordHeader, FieldsEnd;
    var n := |r.fields|;
    RecordInBuffer(b, ro, r);
    RecordSame(b, c, ro, r, n);
    IndexSame(b, c, ro + FIELD_INDEX, n);
    forall i | 0 <= i < n ensures NameSame(b, c, ro + FIELD_HEADER + ys[i]) {
      var j := InIndex(ys, Index(b, ro + FIELD_INDEX, n), i);
      IndexedField(b, ro, r, j);
      IndexedField(c, ro, r, j);
    }
    OrderSame(b, c, ro, ys);
  }

  /** A finished record joins the event. */
  lemma SnocRecord(b: seq<Byte>, e: Event, n: nat, r: Record)
    requires EventAt(b, e, n) && |e.records| < n && 0 < |r.fields|
    requires RECORD_INDEX + 4 * n <= |b| && Word(b, RECORD_INDEX + 4 * |e.records|, 4) == RecordsEnd(n, e.records)
    requires RecordAt(b, RecordsEnd(n, e.records), r, |r.fields|) && SortedAt(b, RecordsEnd(n, e.records), |r.fields|)
    ensures EventAt(b, e.(records := e.records + [r]), n)
    ensures RecordsEnd(n, e.records + [r]) == RecordsEnd(n, e.records) + RecordSize(r)
  {
    hide Word, FieldPlaced, RecordHeaderAt, SortedAt;
    var rs := e.records + [r];
    assert rs[..|rs| - 1] == e.records;
    forall i | 0 <= i < |rs| ensures RecordPlaced(b, rs, n, i) {
      if i < |e.records| {
        assert RecordPlaced(b, e.records, n, i);
        assert rs[..i] == e.records[..i];
      } else {
        assert rs[..i] == e.records;
      }
    }
  }

  lemma EndStep(b: seq<Byte>, c: seq<Byte>, e: Event, n: nat, r: Record, ys: seq<nat>)
    requires Built(b, e, n, Some(r), |r.fields|) && |c| == |b|
    requires var ro, k := RecordsEnd(n, e.records), |r.fields|;
             && multiset(ys) == multiset(Index(b, ro + FIELD_INDEX, k)) && |ys| == k && NamesSorted(b, ro, ys)
             && Same(b, c, 0, ro + FIELD_INDEX + 4 * k) && Same(b, c, ro + FIELD_INDEX + 8 * k, |b|)
             && Index(c, ro + FIELD_INDEX + 4 * k, k) == ys
    ensures Built(c, e.(records := e.records + [r]), n, None, 0)
    ensures RecordsEnd(n, e.records + [r]) == BuiltEnd(e, n, Some(r), |r.fields|)
  {
    hide EventAt, RecordAt, NamesSorted, Index, SortedAt, Word;
    EventSame(b, c, e, n);
    WordSame(b, c, 0, 4);
    WordSame(b, c, RECORD_INDEX + 4 * |e.records|, 4);
    SortedWritten(b, c, RecordsEnd(n, e.records), r, ys);
    SnocRecord(c, e, n, r);
  }

  // ---------------------------------------------------------------- finishing

  /** SET_EVENT_SIZE: the low 24 bits of the first word. */
  function Sized(b: seq<Byte>, size: nat): (r: seq<Byte>)
    requires 4 <= |b|
    ensures |r| == |b|
  {
    PutWord(b, 0, Word(b, 0, 4) / VERSION_UNIT * VERSION_UNIT + size % VERSION_UNIT, 4)
  }

  /** The bytes committed: the event as built, version 1, and the size in 24 bits. */
  lemma FinishStep(b: seq<Byte>, e: Event, size: nat)
    requires Built(b, e, |e.records|, None, 0) && size == RecordsEnd(|e.records|, e.records) <= |b|
    ensures var c := Sized(b, size)[..size];
            && EventAt(c, e, |e.records|)
            && Word(c, 0, 4) == VERSION_UNIT + size % VERSION_UNIT
  {
    hide Word, EventAt, PutWord, RecordsEnd;
    var d := Sized(b, size);
    WordPut(b, 0, VERSION_UNIT + size % VERSION_UNIT, 4);
    WordsFit(VERSION_UNIT + size % VERSION_UNIT);
    var c := d[..size];
    assert Same(d, c, 0, size);
    WordSame(d, c, 0, 4);
    EventSame(b, c, e, |e.records|);
  }

  /** Event::Size and GetVersionAndSize. */
  function SizeOf(b: seq<Byte>): nat
    requires 4 <= |b|
  {
    Word(b, 0, 4) % VERSION_UNIT
  }

  function VersionOf(b: seq<Byte>): nat
    requires 4 <= |b|
  {
    Word(b, 0, 4) / VERSION_UNIT
  }

  lemma SizeSet(b: seq<Byte>, size: nat)
    requires 4 <= |b| && size < VERSION_UNIT
    ensures SizeOf(Sized(b, size)) == size && Same(b, Sized(b, size), 4, |b|)
  {
    hide Word, PutWord;
    var n := Word(b, 0, 4) / VERSION_UNIT * VERSION_UNIT;
    WordPut(b, 0, n + size, 4);
    WordsFit(n + size);
    ModAdd(Word(b, 0, 4) / VERSION_UNIT, size);
  }

  lemma ModAdd(q: nat, size: nat)
    requires size < VERSION_UNIT
    ensures (q * VERSION_UNIT + size) % U32 % VERSION_UNIT == size
  {
    var n := q * VERSION_UNIT + size;
    assert n == U32 * (n / U32) + n % U32;
    assert n % U32 == VERSION_UNIT * (q - 0x100 * (n / U32)) + size;
  }

  /** What can be read off the committed bytes. */
  ghost predicate Reads(c: seq<Byte>, e: Event)
    requires 4 <= |c|
  {
    && EventAt(c, e, |e.records|)
    && (ReadEvent(c) == Some(e) <==> AllRecordsFit(e.records))
    && Sane(c)
    && VersionOf(c) == 1 && (SizeOf(c) == |c| <==> |c| < VERSION_UNIT)
  }

  lemma FinishedReads(b: seq<Byte>, e: Event, n: nat, open: Option<Record>, nf: nat)
    requires Built(b, e, n, open, nf) && |e.records| == n && BuiltEnd(e, n, open, nf) <= |b| < U32
    ensures var size := BuiltEnd(e, n, open, nf);
            RECORD_INDEX < size && |Sized(b, size)[..size]| == size && Reads(Sized(b, size)[..size], e)
  {
    hide Built, Word, EventAt, Sized, AllRecordsFit, ReadEvent, Sane, RecordsEnd;
    ClosedAtEnd(b, e, n, open, nf);
    BuiltIgnoresFields(b, e, n, nf, 0);
    var size := RecordsEnd(n, e.records);
    FinishStep(b, e, size);
    EventRoundTrip(Sized(b, size)[..size], e);
    FinishedIsSane(Sized(b, size)[..size], e);
  }

  class Builder {
    var buffer: seq<Byte>      // EventQueue::_buffer
    var started: bool          // _data is set
    var size: nat
    var roffset: nat
    var fidxoffset: nat
    var fsortedidxoffset: nat
    var foffset: nat
    var recordIdx: nat
    var numFields: nat
    var fieldIdx: nat
    ghost var event: Event     // the finished records
    ghost var declared: nat
    ghost var open: Option<Record>

    ghost predicate Valid()
      reads this
    {
      started ==>
        && Built(buffer, event, declared, open, numFields)
        && recordIdx == |event.records| && roffset == RecordsEnd(declared, event.records)
        && size == BuiltEnd(event, declared, open, numFields) && size <= |buffer| < U32
        && (open.Some? ==>
              && fieldIdx == |open.value.fields| && numFields < U16
              && foffset == FieldsEnd(RecordHeader(open.value, numFields), open.value.fields)
              && fidxoffset == roffset + FIELD_INDEX && fsortedidxoffset == roffset + FIELD_INDEX + 4 * numFields)
    }

    constructor ()
      ensures Valid() && !started && buffer == [] && open == None
    {
      buffer, started, size, open, event := [], false, 0, None, Event(0, 0, 0, 0, 0, []);
    }

    /** EventQueue::Allocate: the buffer only grows, and what it held stays. */
    method Allocate(n: nat)
      requires |buffer| < U32 && n < U32
      modifies this`buffer
      ensures |buffer| == if |old(buffer)| < n then n else |old(buffer)|
      ensures Same(old(buffer), buffer, 0, |old(buffer)|)
      ensures ZeroFrom(buffer, |old(buffer)|)
    {
      if |buffer| < n {
        buffer := buffer + seq(n - |buffer|, _ => 0 as Byte);
      }
    }

    /** The flags of the new event are what the buffer held at their place, zero in a new buffer. */
    method BeginEvent(sec: nat, msec: nat, serial: nat, n: nat) returns (r: Outcome)
      requires Valid() && |buffer| < U32 && n < U16
      requires sec < 0x1_0000_0000_0000_0000 && msec < U32 && serial < 0x1_0000_0000_0000_0000
      modifies this
      ensures Valid() && |buffer| < U32
      ensures r == if old(started) then AlreadyStarted else if n == 0 then NoRecords else Done
      ensures r != Done ==> buffer == old(buffer) && started == old(started) && event == old(event) && open == old(open)
      ensures r == Done ==> started && declared == n && open == None
      ensures r == Done ==> event == Event(sec, msec, serial, event.flags, -1, [])
      ensures r == Done && |old(buffer)| >= RECORD_INDEX ==> event.flags == Word(old(buffer), FLAGS, 4)
      ensures r == Done && |old(buffer)| <= FLAGS ==> event.flags == 0
    {
      hide Built, Begun, Word, ZeroFrom;
      if started {
        return AlreadyStarted;
      }
      if n == 0 {
        return NoRecords;
      }
      ghost var was := buffer;
      Allocate(RECORD_INDEX + 4 * n);
      if |was| >= RECORD_INDEX { WordSame(was, buffer, FLAGS, 4); }
      if |was| <= FLAGS { ZeroWord4(buffer, |was|, FLAGS); }
      BegunReads(buffer, sec, msec, serial, n);
      event, declared, open := Event(sec, msec, serial, Word(buffer, FLAGS, 4), -1, []), n, None;
      buffer := Begun(buffer, sec, msec, serial, n);
      roffset, recordIdx, size, started := RECORD_INDEX + 4 * n, 0, RECORD_INDEX + 4 * n, true;
      BuiltIgnoresFields(buffer, event, n, 0, numFields);
      r := Done;
    }

    method SetEventFlags(flags: nat) returns (r: Outcome)
      requires Valid() && flags < U32
      modifies this
      ensures Valid() && started == old(started) && open == old(open) && declared == old(declared)
      ensures r == (if started then Done else NotStarted)
      ensures event == if started then old(event).(flags := flags) else old(event)
    {
      hide Built;
      if !started {
        return NotStarted;
      }
      HeaderSet(buffer, event, declared, open, numFields, FLAGS, flags);
      HasHeader(buffer, event, declared, open, numFields);
      buffer := PutWord(buffer, FLAGS, flags, 4);
      event := event.(flags := flags);
      r := Done;
    }

    method SetEventPid(pid: int) returns (r: Outcome)
      requires Valid() && -0x8000_0000 <= pid < 0x8000_0000
      modifies this
      ensures Valid() && started == old(started) && open == old(open) && declared == old(declared)
      ensures r == (if started then Done else NotStarted)
      ensures event == if started then old(event).(pid := pid) else old(event)
    {
      hide Built;
      if !started {
        return NotStarted;
      }
      HeaderSet(buffer, event, declared, open, numFields, PID, pid % U32);
      HasHeader(buffer, event, declared, open, numFields);
      buffer := PutWord(buffer, PID, pid % U32, 4);
      event := event.(pid := pid);
      r := Done;
    }

    /** A record may be begun when none is open and the event has one left to declare. */
    method BeginRecord(kind: nat, name: seq<Byte>, text: seq<Byte>, n: nat) returns (r: Outcome)
      requires Valid() && kind < U32 && n < U16
      requires started ==>
                 && open == None && recordIdx < declared
                 && size + RecordHeader(Record(kind, name, text, []), n) < U32
      modifies this
      ensures Valid() && started == old(started) && event == old(event) && declared == old(declared)
      ensures r == if !started then NotStarted else if n == 0 then NoFields
                   else if |name| + 1 >= U16 then NameTooLong else if |text| + 1 >= U16 then TextTooLong else Done
      ensures r != Done ==> open == old(open) && buffer == old(buffer)
      ensures r == Done ==> open == Some(Record(kind, name, text, [])) && numFields == n
    {
      hide Built, RecordBegun, RecordHeader, Same, ZeroFrom, RecordsEnd, FieldsEnd;
      if !started {
        return NotStarted;
      }
      if n == 0 {
        return NoFields;
      }
      BuiltIgnoresFields(buffer, event, declared, numFields, n);
      numFields, fieldIdx := n, 0;
      if |name| + 1 >= U16 {
        return NameTooLong;
      }
      if |text| + 1 >= U16 {
        return TextTooLong;
      }
      OpenRecord(Record(kind, name, text, []));
      r := Done;
    }

    /** The rest of BeginRecord: the record's header is written behind what there is. */
    method OpenRecord(record: Record)
      requires Valid() && started && open == None && recordIdx < declared && fieldIdx == 0 && record.fields == []
      requires 0 < numFields < U16 && record.kind < U32 && |record.name| + 1 < U16 && |record.text| + 1 < U16
      requires size + RecordHeader(record, numFields) < U32
      modifies this`buffer, this`size, this`foffset, this`fidxoffset, this`fsortedidxoffset, this`open
      ensures Valid() && open == Some(record)
    {
      hide Built, RecordBegun, RecordHeader, Same, ZeroFrom, RecordsEnd, FieldsEnd;
      var header := RecordHeader(record, numFields);
      ghost var was := buffer;
      BuiltIgnoresFields(buffer, event, declared, numFields, 0);
      Allocate(size + header);
      GrownIsBuilt(was, buffer, event, declared, None, 0);
      BeginStep(buffer, event, declared, record, numFields);
      buffer := RecordBegun(buffer, RECORD_INDEX + 4 * recordIdx, roffset, record, numFields);
      size := size + header;
      foffset, fidxoffset, fsortedidxoffset := header, roffset + FIELD_INDEX, roffset + FIELD_INDEX + 4 * numFields;
      open := Some(record);
    }

    /** A field may be added while a record is open. */
    method AddField(f: Field) returns (r: Outcome)
      requires Valid() && (started ==> open.Some? && size + FieldSize(f) < U32)
      modifies this
      ensures Valid() && started == old(started) && event == old(event) && declared == old(declared)
      ensures numFields == old(numFields)
      ensures r == if !started then NotStarted else if |f.name| + 1 >= U16 then NameTooLong
                   else if |f.raw| + 1 >= U32 then RawTooLong else if InterpSize(f) >= U32 then InterpTooLong
                   else if |old(open).value.fields| >= numFields then TooManyFields else Done
      ensures r != Done ==> open == old(open) && buffer == old(buffer)
      ensures r == Done ==> open == Some(old(open).value.(fields := old(open).value.fields + [f]))
    {
      hide Built, FieldAdded, RecordHeader, Same, ZeroFrom, RecordsEnd, FieldsEnd, FieldSize, InterpSize;
      if !started {
        return NotStarted;
      }
      if |f.name| + 1 >= U16 {
        return NameTooLong;
      }
      if |f.raw| + 1 >= U32 {
        return RawTooLong;
      }
      if InterpSize(f) >= U32 {
        return InterpTooLong;
      }
      if fieldIdx >= numFields {
        return TooManyFields;
      }
      AppendField(f);
      r := Done;
    }

    /** The rest of AddField: the field is written behind what there is, and its offset into the index. */
    method AppendField(f: Field)
      requires Valid() && started && open.Some? && fieldIdx < numFields && Accepted(f) && size + FieldSize(f) < U32
      modifies this`buffer, this`size, this`foffset, this`fieldIdx, this`open
      ensures Valid() && open == Some(old(open).value.(fields := old(open).value.fields + [f]))
    {
      hide Built, BuiltEnd, FieldAdded, RecordHeader, Same, ZeroFrom, RecordsEnd, FieldsEnd, FieldSize, Accepted;
      ghost var was, r := buffer, open.value;
      Allocate(size + FieldSize(f));
      GrownIsBuilt(was, buffer, event, declared, open, numFields);
      FieldFits(buffer, event, declared, r, numFields, f);
      AddStep(buffer, event, declared, r, numFields, f);
      buffer := PutWord(FieldAdded(buffer, roffset + foffset, f), fidxoffset + 4 * fieldIdx, foffset, 4);
      foffset, fieldIdx, size := foffset + FieldSize(f), fieldIdx + 1, size + FieldSize(f);
      open := Some(open.value.(fields := open.value.fields + [f]));
    }

    /** The record is complete when it has as many fields as declared. */
    method EndRecord() returns (r: Outcome)
      requires Valid() && (started ==> open.Some?)
      modifies this
      ensures Valid() && started == old(started) && declared == old(declared)
      ensures r == if !started then NotStarted else if |old(open).value.fields| != numFields then WrongCount else Done
      ensures r != Done ==> open == old(open) && event == old(event) && buffer == old(buffer)
      ensures r == Done ==> open == None && event == old(event).(records := old(event).records + [old(open).value])
    {
      hide Built, Index, NamesSorted, Names.InOrder, Same, ZeroFrom, RecordsEnd, FieldsEnd, RecordHeader;
      if !started {
        return NotStarted;
      }
      if fieldIdx != numFields {
        return WrongCount;
      }
      FieldBounds(buffer, event, declared, open.value, numFields);
      var offsets := Index(buffer, fidxoffset, numFields);
      OpenIndexIsUsable(buffer, event, declared, open.value);
      var sorted := SortByName(buffer, roffset + FIELD_HEADER, offsets);
      SortedAreSmall(offsets, sorted);
      SortedNames(buffer, roffset, sorted);
      ghost var was := buffer;
      buffer := CopyIndex(buffer, fsortedidxoffset, sorted);
      EndStep(was, buffer, event, declared, open.value, sorted);
      event := event.(records := event.records + [open.value]);
      open := None;
      BuiltIgnoresFields(buffer, event, declared, 0, numFields);
      recordIdx, roffset := recordIdx + 1, size;
      r := Done;
    }

    /**
     * The committed bytes are a valid event, of version 1; they read back as what was built exactly
     * when every field's sizes and type fit in 16 bits, and their size word is right exactly below
     * 2^24 bytes.
     */
    method EndEvent() returns (r: Outcome, bytes: seq<Byte>)
      requires Valid()
      modifies this
      ensures Valid()
      ensures r == if !old(started) then NotStarted
                   else if |old(event).records| != old(declared) then WrongCount else Done
      ensures r != Done ==> started == old(started) && buffer == old(buffer) && event == old(event) && open == old(open)
      ensures r == Done ==> !started && RECORD_INDEX < |bytes| == old(size) < U32 && Reads(bytes, old(event))
    {
      hide Built, Word, Reads, RecordsEnd, BuiltEnd, Sized;
      bytes := [];
      if !started {
        return NotStarted, [];
      }
      HasHeader(buffer, event, declared, open, numFields);
      if recordIdx != Word(buffer, NUM_RECORDS, 2) {
        return WrongCount, [];
      }
      FinishedReads(buffer, event, declared, open, numFields);
      buffer := Sized(buffer, size);
      bytes := buffer[..size];
      started, size := false, 0;
      r := Done;
    }

    method CancelEvent() returns (r: Outcome)
      requires Valid()
      modifies this
      ensures Valid() && !started && |buffer| == |old(buffer)|
      ensures r == if old(started) then Done else NotStarted
      ensures r == Done ==> 4 <= |buffer| && SizeOf(buffer) == 0 && Same(old(buffer), buffer, 4, |buffer|)
      ensures r != Done ==> buffer == old(buffer)
    {
      hide Built, Word, SizeOf, Sized;
      if !started {
        return NotStarted;
      }
      HasHeader(buffer, event, declared, open, numFields);
      SizeSet(buffer, 0);
      buffer := Sized(buffer, 0);
      started, size := false, 0;
      r := Done;
    }
  }

  // ---------------------------------------------------------------- what the methods need of Built

  ghost predicate ZeroFrom(b: seq<Byte>, n: nat) {
    forall i | n <= i < |b| :: b[i] == 0
  }

  lemma ZeroWord4(b: seq<Byte>, n: nat, p: nat)
    requires n <= p && p + 4 <= |b| && ZeroFrom(b, n)
    ensures Word(b, p, 4) == 0
  {
    var s := b[p..p + 4];
    assert s == [0, 0, 0, 0];
    assert LeVal([0]) == 0 && [0, 0][1..] == [0] && [0, 0, 0][1..] == [0, 0] && [0, 0, 0, 0][1..] == [0, 0, 0];
  }

  lemma BuiltIgnoresFields(b: seq<Byte>, e: Event, n: nat, k: nat, m: nat)
    requires Built(b, e, n, None, k)
    ensures Built(b, e, n, None, m)
  {
  }

  lemma HasHeader(b: seq<Byte>, e: Event, n: nat, open: Option<Record>, nf: nat)
    requires Built(b, e, n, open, nf)
    ensures RECORD_INDEX + 4 * n <= |b| && Word(b, NUM_RECORDS, 2) == n
  {
  }

  lemma EventInBuffer(b: seq<Byte>, e: Event, n: nat)
    requires EventAt(b, e, n)
    ensures RECORD_INDEX <= RecordsEnd(n, e.records) <= |b| && |e.records| <= n
  {
  }

  lemma GrownIsBuilt(b: seq<Byte>, c: seq<Byte>, e: Event, n: nat, open: Option<Record>, nf: nat)
    requires Built(b, e, n, open, nf) && Same(b, c, 0, |b|)
    ensures Built(c, e, n, open, nf)
  {
    hide EventAt, RecordAt, Word;
    EventInBuffer(b, e, n);
    EventSame(b, c, e, n);
    WordSame(b, c, 0, 4);
    if open.Some? { OpenSame(b, c, e, n, open.value, nf); }
  }

  lemma FieldBounds(b: seq<Byte>, e: Event, n: nat, r: Record, nf: nat)
    requires Built(b, e, n, Some(r), nf)
    ensures var ro := RecordsEnd(n, e.records);
            ro + FIELD_INDEX + 8 * nf <= ro + RecordHeader(r, nf) <= BuiltEnd(e, n, Some(r), nf) <= |b| && |r.fields| <= nf
  {
  }

  /** Where a field goes, and where the record then ends. */
  lemma FieldFits(b: seq<Byte>, e: Event, n: nat, r: Record, nf: nat, f: Field)
    requires Built(b, e, n, Some(r), nf) && |r.fields| < nf && BuiltEnd(e, n, Some(r), nf) + FieldSize(f) <= |b|
    ensures var ro, fo, q := RecordsEnd(n, e.records), FieldsEnd(RecordHeader(r, nf), r.fields), r.(fields := r.fields + [f]);
            && ro + fo == BuiltEnd(e, n, Some(r), nf) && ro + FIELD_INDEX + 4 * |r.fields| + 4 <= ro + fo
            && FieldsEnd(RecordHeader(q, nf), q.fields) == fo + FieldSize(f)
            && BuiltEnd(e, n, Some(q), nf) == ro + fo + FieldSize(f)
  {
    hide Built, RecordHeader, RecordsEnd, FieldsEnd, FieldSize;
    FieldBounds(b, e, n, r, nf);
    SnocEnd(r, nf, f);
    HeaderFirst(RecordHeader(r, nf), r.fields);
  }

  lemma HeaderFirst(h: nat, fs: seq<Field>)
    ensures h <= FieldsEnd(h, fs)
  {
  }

  lemma SnocEnd(r: Record, nf: nat, f: Field)
    ensures RecordHeader(r.(fields := r.fields + [f]), nf) == RecordHeader(r, nf)
    ensures FieldsEnd(RecordHeader(r, nf), r.fields + [f]) == FieldsEnd(RecordHeader(r, nf), r.fields) + FieldSize(f)
  {
    var fs := r.fields + [f];
    assert fs[..|fs| - 1] == r.fields;
  }

  lemma OpenIndexIsUsable(b: seq<Byte>, e: Event, n: nat, r: Record)
    requires Built(b, e, n, Some(r), |r.fields|) && |b| < U32
    ensures var ro := RecordsEnd(n, e.records);
            && ro + FIELD_INDEX + 4 * |r.fields| <= |b|
            && var xs := Index(b, ro + FIELD_INDEX, |r.fields|);
            AllIn(b, ro + FIELD_HEADER, xs) && forall i | 0 <= i < |xs| :: xs[i] < U32
  {
    hide EventAt, RecordAt, Index;
    FieldBounds(b, e, n, r, |r.fields|);
    IndexIsUsable(b, RecordsEnd(n, e.records), r);
  }

  lemma SortedAreSmall(xs: seq<nat>, ys: seq<nat>)
    requires multiset(xs) == multiset(ys) && forall i | 0 <= i < |xs| :: xs[i] < U32
    ensures forall i | 0 <= i < |ys| :: ys[i] < U32
  {
    forall i | 0 <= i < |ys| ensures ys[i] < U32 {
      var j := InIndex(ys, xs, i);
    }
  }

  lemma SortedNames(b: seq<Byte>, ro: nat, ys: seq<nat>)
    requires AllIn(b, ro + FIELD_HEADER, ys) && Names.InOrder(b, ro + FIELD_HEADER, ys)
    ensures NamesSorted(b, ro, ys)
  {
  }

  /** With as many records as declared none is open. */
  lemma ClosedAtEnd(b: seq<Byte>, e: Event, n: nat, open: Option<Record>, nf: nat)
    requires Built(b, e, n, open, nf) && |e.records| == n
    ensures open == None && RECORD_INDEX < RecordsEnd(n, e.records)
  {
  }
}
