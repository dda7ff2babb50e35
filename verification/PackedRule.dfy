/**
 * The packed form of an audit rule: a table of fields, and one buffer that holds the values of the
 * string fields one behind the other. AuditRule's add_str_field, remove_field, fill_value_offsets,
 * GetKeys and SetKeys in AuditRules.cpp.
 */
module PackedRule {
  import opened Bytes
  import opened Names

  // field numbers of linux/audit.h
  const AUDIT_WATCH := 105
  const AUDIT_DIR := 107
  const AUDIT_EXE := 112
  const AUDIT_FILTERKEY := 210
  const AUDIT_MAX_FIELDS := 64
  const AUDIT_EQUAL := 0x4000_0000
  const MAX_KEY_LEN := 256
  const KEY_SEP: Byte := 1
  const U32 := 0x1_0000_0000

  /** The fields whose value is the length of a string in the buffer: the subject, object, path and key fields. */
  predicate IsString(id: nat) {
    13 <= id <= 17 || 19 <= id <= 23 || id == AUDIT_WATCH || id == AUDIT_DIR || id == AUDIT_EXE || id == AUDIT_FILTERKEY
  }

  /** One column of the field table, with its entry in _value_offsets. */
  datatype Field = Field(id: nat, op: nat, value: nat, offset: nat)

  /** The fields in use and the bytes in use. */
  datatype Packed = Packed(fields: seq<Field>, buf: seq<Byte>)

  /** The bytes taken up by the string fields among fs. */
  function Start(fs: seq<Field>): nat {
    if fs == [] then 0
    else Start(fs[..|fs| - 1]) + if IsString(fs[|fs| - 1].id) then fs[|fs| - 1].value else 0
  }

  /** The offset fill_value_offsets computes for field i. */
  function FilledOffset(fs: seq<Field>, i: nat): nat
    requires i < |fs|
  {
    if IsString(fs[i].id) then Start(fs[..i]) else 0
  }

  /** The offsets are what fill_value_offsets would compute, and the strings fill the buffer. */
  ghost predicate Consistent(p: Packed) {
    && (forall i | 0 <= i < |p.fields| :: p.fields[i].offset == FilledOffset(p.fields, i))
    && |p.buf| == Start(p.fields) < U32
  }

  lemma {:induction false} StartMono(fs: seq<Field>, i: nat)
    requires i < |fs|
    ensures Start(fs[..i]) + (if IsString(fs[i].id) then fs[i].value else 0) <= Start(fs)
    decreases |fs|
  {
    var n := |fs| - 1;
    if i < n {
      StartMono(fs[..n], i);
      assert fs[..n][..i] == fs[..i] && fs[..n][i] == fs[i];
    }
  }

  lemma StartNext(fs: seq<Field>, f: Field)
    ensures Start(fs + [f]) == Start(fs) + if IsString(f.id) then f.value else 0
  {
    assert (fs + [f])[..|fs|] == fs;
  }

  // ---------------------------------------------------------------- what the packed form stands for

  /** A field as its readers see it. */
  datatype Entry = Number(id: nat, op: nat, value: nat) | String(id: nat, op: nat, text: seq<Byte>)

  function EntryOf(f: Field, buf: seq<Byte>): Entry {
    if IsString(f.id) then
      String(f.id, f.op, if f.offset + f.value <= |buf| then buf[f.offset..f.offset + f.value] else [])
    else Number(f.id, f.op, f.value)
  }

  function Entries(p: Packed): (es: seq<Entry>)
    ensures |es| == |p.fields| && forall i | 0 <= i < |es| :: es[i] == EntryOf(p.fields[i], p.buf)
  {
    seq(|p.fields|, i requires 0 <= i < |p.fields| => EntryOf(p.fields[i], p.buf))
  }

  /** Each string lies in the buffer, behind those of the fields before it. */
  lemma InBuffer(p: Packed, i: nat)
    requires Consistent(p) && i < |p.fields| && IsString(p.fields[i].id)
    ensures p.fields[i].offset == Start(p.fields[..i]) && p.fields[i].offset + p.fields[i].value <= |p.buf|
  {
    StartMono(p.fields, i);
  }

  // ---------------------------------------------------------------- adding and removing

  /** add_str_field. */
  function Added(p: Packed, id: nat, op: nat, text: seq<Byte>): Packed {
    Packed(p.fields + [Field(id, op, |text|, |p.buf|)], p.buf + text)
  }

  lemma AddKeepsConsistent(p: Packed, id: nat, op: nat, text: seq<Byte>)
    requires Consistent(p) && IsString(id) && |p.buf| + |text| < U32
    ensures Consistent(Added(p, id, op, text))
    ensures Entries(Added(p, id, op, text)) == Entries(p) + [String(id, op, text)]
  {
    hide Start, IsString;
    var q := Added(p, id, op, text);
    StartNext(p.fields, q.fields[|p.fields|]);
    forall i | 0 <= i < |q.fields| ensures q.fields[i].offset == FilledOffset(q.fields, i) {
      if i < |p.fields| { assert q.fields[..i] == p.fields[..i]; } else { assert q.fields[..i] == p.fields; }
    }
    forall i | 0 <= i < |p.fields| ensures EntryOf(q.fields[i], q.buf) == EntryOf(p.fields[i], p.buf) {
      if IsString(p.fields[i].id) { InBuffer(p, i); }
    }
    assert q.buf[|p.buf|..|p.buf| + |text|] == text;
  }

  /** A later field moves one column down; an offset that is not zero is corrected, in 32 bits. */
  function Shifted(f: Field, len: nat): Field {
    f.(offset := if f.offset != 0 then (f.offset - len) % U32 else 0)
  }

  function ShiftedAll(fs: seq<Field>, len: nat): (r: seq<Field>)
    ensures |r| == |fs| && forall i | 0 <= i < |fs| :: r[i] == Shifted(fs[i], len)
  {
    seq(|fs|, i requires 0 <= i < |fs| => Shifted(fs[i], len))
  }

  /** remove_field. */
  function Removed(p: Packed, idx: nat): Packed
    requires idx < |p.fields| && p.fields[idx].offset + p.fields[idx].value <= |p.buf|
  {
    var off, len := p.fields[idx].offset, p.fields[idx].value;
    Packed(p.fields[..idx] + ShiftedAll(p.fields[idx + 1..], len), p.buf[..off] + p.buf[off + len..])
  }

  function SizeOf(f: Field): nat {
    if IsString(f.id) then f.value else 0
  }

  lemma {:induction false} StartOfShifted(fs: seq<Field>, gs: seq<Field>, len: nat)
    ensures Start(fs + ShiftedAll(gs, len)) == Start(fs + gs)
  {
    if gs == [] {
      assert fs + ShiftedAll(gs, len) == fs + gs;
    } else {
      var n := |gs| - 1;
      StartOfShifted(fs, gs[..n], len);
      assert fs + gs == (fs + gs[..n]) + [gs[n]];
      assert fs + ShiftedAll(gs, len) == (fs + ShiftedAll(gs[..n], len)) + [Shifted(gs[n], len)];
      StartNext(fs + gs[..n], gs[n]);
      StartNext(fs + ShiftedAll(gs[..n], len), Shifted(gs[n], len));
    }
  }

  lemma {:induction false} StartWithout(fs: seq<Field>, f: Field, gs: seq<Field>)
    ensures Start(fs + [f] + gs) == Start(fs + gs) + SizeOf(f)
  {
    if gs == [] {
      assert fs + [f] + gs == fs + [f] && fs + gs == fs;
      StartNext(fs, f);
    } else {
      var n := |gs| - 1;
      StartWithout(fs, f, gs[..n]);
      assert fs + [f] + gs == (fs + [f] + gs[..n]) + [gs[n]];
      assert fs + gs == (fs + gs[..n]) + [gs[n]];
      StartNext(fs + [f] + gs[..n], gs[n]);
      StartNext(fs + gs[..n], gs[n]);
    }
  }

  lemma ShiftedOffset(p: Packed, idx: nat, i: nat)
    requires Consistent(p) && idx < i < |p.fields| && IsString(p.fields[idx].id)
    requires p.fields[idx].offset + p.fields[idx].value <= |p.buf|
    ensures var q := Removed(p, idx);
            && q.fields[i - 1] == Shifted(p.fields[i], p.fields[idx].value)
            && q.fields[i - 1].offset == FilledOffset(q.fields, i - 1)
            && (IsString(p.fields[i].id) ==> q.fields[i - 1].offset == p.fields[i].offset - p.fields[idx].value)
  {
    hide Start, IsString;
    var q := Removed(p, idx);
    var fs, f, gs := p.fields[..idx], p.fields[idx], p.fields[idx + 1..i];
    assert p.fields[..i] == fs + [f] + gs;
    assert q.fields[..i - 1] == fs + ShiftedAll(gs, f.value);
    StartWithout(fs, f, gs);
    StartOfShifted(fs, gs, f.value);
    InBuffer(p, idx);
    if IsString(p.fields[i].id) {
      InBuffer(p, i);
      StartInside(p.fields, idx, i);
    }
  }

  lemma RemovedBuf(p: Packed, idx: nat)
    requires idx < |p.fields| && p.fields[idx].offset + p.fields[idx].value <= |p.buf|
    ensures Removed(p, idx).buf == p.buf[..p.fields[idx].offset] + p.buf[p.fields[idx].offset + p.fields[idx].value..]
    ensures |Removed(p, idx).fields| == |p.fields| - 1
  {
  }

  /** The field behind the removed one keeps its text. */
  lemma ShiftedField(p: Packed, idx: nat, i: nat)
    requires Consistent(p) && idx < i < |p.fields| && IsString(p.fields[idx].id)
    requires p.fields[idx].offset + p.fields[idx].value <= |p.buf|
    ensures var q := Removed(p, idx);
            && q.fields[i - 1].offset == FilledOffset(q.fields, i - 1)
            && EntryOf(q.fields[i - 1], q.buf) == EntryOf(p.fields[i], p.buf)
  {
    hide Start, IsString, FilledOffset, Removed, Consistent, EntryOf;
    ShiftedOffset(p, idx, i);
    RemovedBuf(p, idx);
    var f := p.fields[i];
    if IsString(f.id) {
      InBuffer(p, idx);
      InBuffer(p, i);
      StartInside(p.fields, idx, i);
      MovedText(p.buf, p.fields[idx].offset, p.fields[idx].value, f.offset, f.value);
    }
    ShiftedEntry(f, p.fields[idx].value, p.buf, Removed(p, idx).buf);
  }

  /** A shifted field has the entry it had, if its text was shifted as well. */
  lemma ShiftedEntry(f: Field, len: nat, buf: seq<Byte>, moved: seq<Byte>)
    requires IsString(f.id) ==>
               && len <= f.offset && f.offset + f.value <= |buf| && f.offset - len + f.value <= |moved|
               && moved[f.offset - len..f.offset - len + f.value] == buf[f.offset..f.offset + f.value]
               && Shifted(f, len).offset == f.offset - len
    ensures EntryOf(Shifted(f, len), moved) == EntryOf(f, buf)
  {
  }

  lemma StartInside(fs: seq<Field>, idx: nat, i: nat)
    requires idx < i <= |fs| && IsString(fs[idx].id)
    ensures Start(fs[..i]) >= Start(fs[..idx]) + fs[idx].value
  {
    StartMono(fs[..i], idx);
    assert fs[..i][..idx] == fs[..idx] && fs[..i][idx] == fs[idx];
  }

  lemma MovedText(buf: seq<Byte>, off: nat, len: nat, at: nat, n: nat)
    requires off + len <= at && at + n <= |buf|
    ensures (buf[..off] + buf[off + len..])[at - len..at - len + n] == buf[at..at + n]
  {
  }

  lemma RemoveKeepsConsistent(p: Packed, idx: nat)
    requires Consistent(p) && idx < |p.fields| && IsString(p.fields[idx].id)
    ensures p.fields[idx].offset + p.fields[idx].value <= |p.buf|
    ensures Consistent(Removed(p, idx))
    ensures Entries(Removed(p, idx)) == Entries(p)[..idx] + Entries(p)[idx + 1..]
  {
    hide Start, IsString, EntryOf, FilledOffset;
    InBuffer(p, idx);
    var q := Removed(p, idx);
    var f := p.fields[idx];
    assert p.fields == p.fields[..idx] + [f] + p.fields[idx + 1..];
    StartWithout(p.fields[..idx], f, p.fields[idx + 1..]);
    StartOfShifted(p.fields[..idx], p.fields[idx + 1..], f.value);
    SizeOfString(f);
    forall i | 0 <= i < |q.fields|
      ensures q.fields[i].offset == FilledOffset(q.fields, i)
      ensures Entries(q)[i] == (Entries(p)[..idx] + Entries(p)[idx + 1..])[i]
    {
      if i < idx { FieldBefore(p, idx, i); } else { ShiftedField(p, idx, i + 1); }
    }
  }

  lemma SizeOfString(f: Field)
    ensures IsString(f.id) ==> SizeOf(f) == f.value
  {
  }

  lemma FieldBefore(p: Packed, idx: nat, i: nat)
    requires Consistent(p) && i < idx < |p.fields| && IsString(p.fields[idx].id)
    requires p.fields[idx].offset + p.fields[idx].value <= |p.buf|
    ensures var q := Removed(p, idx);
            && q.fields[i].offset == FilledOffset(q.fields, i) && EntryOf(q.fields[i], q.buf) == EntryOf(p.fields[i], p.buf)
  {
    hide Start, IsString;
    var q := Removed(p, idx);
    assert q.fields[..i] == p.fields[..i] && q.fields[i] == p.fields[i];
    if IsString(p.fields[i].id) {
      InBuffer(p, i);
      InBuffer(p, idx);
      StartMono(p.fields[..idx], i);
      assert p.fields[..idx][..i] == p.fields[..i] && p.fields[..idx][i] == p.fields[i];
    }
  }

  // ---------------------------------------------------------------- keys

  predicate IsKey(e: Entry) {
    e.id == AUDIT_FILTERKEY && e.String?
  }

  /** The entries that are not key fields, in order. */
  function Others(es: seq<Entry>): seq<Entry> {
    if es == [] then [] else Others(es[..|es| - 1]) + if IsKey(es[|es| - 1]) then [] else [es[|es| - 1]]
  }

  /** The strings of the key fields, in order. */
  function KeyTexts(es: seq<Entry>): seq<seq<Byte>> {
    if es == [] then [] else KeyTexts(es[..|es| - 1]) + if IsKey(es[|es| - 1]) then [es[|es| - 1].text] else []
  }

  /** The first key field, or the number of fields. */
  function FirstKey(es: seq<Entry>): (k: nat)
    ensures k <= |es| && (k < |es| ==> IsKey(es[k])) && forall i | 0 <= i < k :: !IsKey(es[i])
  {
    if es == [] then 0
    else
      var n := |es| - 1;
      var k := FirstKey(es[..n]);
      if k < n || IsKey(es[n]) then k else n + 1
  }

  lemma {:induction false} FilterJoin(a: seq<Entry>, b: seq<Entry>)
    ensures Others(a + b) == Others(a) + Others(b) && KeyTexts(a + b) == KeyTexts(a) + KeyTexts(b)
  {
    hide Others, KeyTexts, IsKey;
    FilterLast(b);
    if b == [] {
      assert a + b == a;
    } else {
      var n := |b| - 1;
      FilterJoin(a, b[..n]);
      assert (a + b)[..|a + b| - 1] == a + b[..n] && (a + b)[|a + b| - 1] == b[n];
      FilterLast(a + b);
    }
  }

  lemma FilterLast(es: seq<Entry>)
    ensures es == [] ==> Others(es) == [] && KeyTexts(es) == []
    ensures es != [] ==>
              var n := |es| - 1;
              && Others(es) == Others(es[..n]) + (if IsKey(es[n]) then [] else [es[n]])
              && KeyTexts(es) == KeyTexts(es[..n]) + (if IsKey(es[n]) then [es[n].text] else [])
  {
  }

  lemma {:induction false} NoKeysBefore(es: seq<Entry>)
    requires forall i | 0 <= i < |es| :: !IsKey(es[i])
    ensures KeyTexts(es) == [] && Others(es) == es
  {
    if es != [] {
      NoKeysBefore(es[..|es| - 1]);
      assert es == es[..|es| - 1] + [es[|es| - 1]];
    }
  }

  lemma FilterOne(e: Entry)
    ensures Others([e]) == (if IsKey(e) then [] else [e]) && KeyTexts([e]) == (if IsKey(e) then [e.text] else [])
  {
    assert [e][..0] == [];
  }

  /** What SetKeys leaves: without the first key field, and with a new one for a text that is not empty. */
  function WithKeys(es: seq<Entry>, text: seq<Byte>): seq<Entry> {
    var k := FirstKey(es);
    (if k < |es| then es[..k] + es[k + 1..] else es) + if text == [] then [] else [String(AUDIT_FILTERKEY, AUDIT_EQUAL, text)]
  }

  /** No other field changes; of the key texts the first goes and the new one comes. */
  lemma WithKeysKeepsOthers(es: seq<Entry>, text: seq<Byte>)
    ensures Others(WithKeys(es, text)) == Others(es)
    ensures KeyTexts(WithKeys(es, text)) ==
            (if KeyTexts(es) == [] then [] else KeyTexts(es)[1..]) + if text == [] then [] else [text]
    ensures text != [] ==>
              var n := |WithKeys(es, text)| - 1; n >= 0 && WithKeys(es, text)[n] == String(210, 0x4000_0000, text)
  {
    hide Others, KeyTexts, FirstKey;
    var k := FirstKey(es);
    var added := if text == [] then [] else [String(AUDIT_FILTERKEY, AUDIT_EQUAL, text)];
    FilterOne(String(AUDIT_FILTERKEY, AUDIT_EQUAL, text));
    NoKeysBefore([]);
    if k < |es| {
      FirstKeyTaken(es, k);
      FilterJoin(es[..k] + es[k + 1..], added);
    } else {
      NoKeysBefore(es);
      FilterJoin(es, added);
    }
  }

  lemma FirstKeyTaken(es: seq<Entry>, k: nat)
    requires k < |es| && IsKey(es[k]) && forall i | 0 <= i < k :: !IsKey(es[i])
    ensures Others(es[..k] + es[k + 1..]) == Others(es)
            && KeyTexts(es) == [es[k].text] + KeyTexts(es[..k] + es[k + 1..])
  {
    hide Others, KeyTexts;
    var a, e, b := es[..k], es[k], es[k + 1..];
    NoKeysBefore(a);
    FilterOne(e);
    assert es == (a + [e]) + b;
    FilterJoin(a, [e]);
    FilterJoin(a + [e], b);
    FilterJoin(a, b);
  }

  // ---------------------------------------------------------------- joining and splitting

  /** Where the first separator is, or the length. */
  function FirstSep(s: seq<Byte>): (i: nat)
    ensures i <= |s| && (i < |s| ==> s[i] == KEY_SEP) && forall j | 0 <= j < i :: s[j] != KEY_SEP
  {
    if s == [] || s[0] == KEY_SEP then 0 else 1 + FirstSep(s[1..])
  }

  /** s without the separators it begins with. */
  function SkipSeps(s: seq<Byte>): (r: seq<Byte>)
    ensures |r| <= |s| && (s != [] && s[0] == KEY_SEP ==> |r| < |s|)
    ensures r != [] ==> r[0] != KEY_SEP
  {
    if s == [] || s[0] != KEY_SEP then s else SkipSeps(s[1..])
  }

  /** split: the texts between runs of separators, and one empty text for the empty string. */
  function Split(s: seq<Byte>): seq<seq<Byte>>
    decreases |s|
  {
    var i := FirstSep(s);
    if i == |s| then [s]
    else
      var rest := SkipSeps(s[i..]);
      [s[..i]] + if rest == [] then [] else Split(rest)
  }

  /** SetKeys's loop over the sorted keys. */
  function Join(ks: seq<seq<Byte>>): seq<Byte> {
    if ks == [] then []
    else
      var before := Join(ks[..|ks| - 1]);
      before + (if before == [] then [] else [KEY_SEP]) + ks[|ks| - 1]
  }

  predicate HasNoSep(k: seq<Byte>) {
    forall i | 0 <= i < |k| :: k[i] != KEY_SEP
  }

  predicate Plain(k: seq<Byte>) {
    k != [] && HasNoSep(k)
  }

  lemma {:induction false} JoinFront(k: seq<Byte>, ks: seq<seq<Byte>>)
    requires k != [] && ks != [] && forall i | 0 <= i < |ks| :: ks[i] != []
    ensures Join([k] + ks) == k + [KEY_SEP] + Join(ks) && Join(ks) != []
  {
    var n := |ks| - 1;
    assert ([k] + ks)[..|[k] + ks| - 1] == [k] + ks[..n];
    if n == 0 {
      assert [k] + ks[..0] == [k] && ks[..0] == [];
      JoinOne(k);
      JoinOne(ks[0]);
      assert ks == [ks[0]];
    } else {
      JoinFront(k, ks[..n]);
    }
  }

  lemma JoinOne(k: seq<Byte>)
    ensures Join([k]) == k
  {
    assert [k][..0] == [];
  }

  lemma {:induction false} SepAt(k: seq<Byte>, rest: seq<Byte>)
    requires HasNoSep(k)
    ensures FirstSep(k + [KEY_SEP] + rest) == |k|
  {
    var s := k + [KEY_SEP] + rest;
    var i := FirstSep(s);
    assert s[|k|] == KEY_SEP;
    assert forall j | 0 <= j < |k| :: s[j] == k[j];
  }

  /** Splitting a joined list of plain keys gives the list back. */
  lemma {:induction false} SplitJoin(ks: seq<seq<Byte>>)
    requires ks != [] && forall i | 0 <= i < |ks| :: Plain(ks[i])
    ensures Split(Join(ks)) == ks
  {
    hide Split, Join;
    var k := ks[0];
    if |ks| == 1 {
      assert ks == [k];
      JoinOne(k);
      SplitPlain(k);
    } else {
      var rest := ks[1..];
      assert ks == [k] + rest;
      JoinFront(k, rest);
      SplitJoin(rest);
      JoinStart(rest);
      SplitFront(k, Join(rest));
    }
  }

  lemma SplitPlain(k: seq<Byte>)
    requires HasNoSep(k)
    ensures Split(k) == [k]
  {
  }

  lemma SplitFront(k: seq<Byte>, t: seq<Byte>)
    requires HasNoSep(k) && t != [] && t[0] != KEY_SEP
    ensures Split(k + [KEY_SEP] + t) == [k] + Split(t)
  {
    hide Split, FirstSep;
    var s := k + [KEY_SEP] + t;
    SepAt(k, t);
    SplitOnce(s);
    assert s[|k|..] == [KEY_SEP] + t && s[..|k|] == k;
    OneSep(s[|k|..], t);
  }

  lemma OneSep(s: seq<Byte>, t: seq<Byte>)
    requires s == [KEY_SEP] + t && t != [] && t[0] != KEY_SEP
    ensures SkipSeps(s) == t
  {
    assert s[1..] == t;
    assert SkipSeps(s) == SkipSeps(t);
  }

  lemma {:induction false} JoinStart(ks: seq<seq<Byte>>)
    requires ks != [] && forall i | 0 <= i < |ks| :: Plain(ks[i])
    ensures Join(ks) != [] && Join(ks)[0] != KEY_SEP
  {
    var n := |ks| - 1;
    if n == 0 {
      assert ks == [ks[0]];
      JoinOne(ks[0]);
    } else {
      JoinStart(ks[..n]);
    }
  }

  /** What splitting yields has no separator, and is not empty when the string does not begin with one. */
  lemma {:induction false} SplitParts(s: seq<Byte>, i: nat)
    requires i < |Split(s)|
    ensures HasNoSep(Split(s)[i])
    ensures s != [] && s[0] != KEY_SEP ==> Split(s)[i] != []
    decreases |s|
  {
    var e := FirstSep(s);
    if e < |s| && i > 0 {
      SplitParts(SkipSeps(s[e..]), i - 1);
    }
  }

  // ---------------------------------------------------------------- GetKeys undoes SetKeys

  function PartSet(parts: seq<seq<Byte>>): set<seq<Byte>> {
    set k | k in parts
  }

  /** What GetKeys collects from the key fields. */
  function KeySet(texts: seq<seq<Byte>>): set<seq<Byte>> {
    if texts == [] then {} else KeySet(texts[..|texts| - 1]) + PartSet(Split(texts[|texts| - 1]))
  }

  /** The keys as a sorted list. */
  ghost predicate SortedList(ks: seq<seq<Byte>>, keys: set<seq<Byte>>) {
    (forall k :: k in keys <==> k in ks) && forall i, j | 0 <= i < j < |ks| :: Less(ks[i], ks[j])
  }

  /** A joined list of keys without separators does not begin with one. */
  lemma {:induction false} JoinedStart(ks: seq<seq<Byte>>)
    requires forall i | 0 <= i < |ks| :: HasNoSep(ks[i])
    ensures Join(ks) != [] ==> Join(ks)[0] != KEY_SEP
  {
    if ks != [] { JoinedStart(ks[..|ks| - 1]); }
  }

  lemma OneText(text: seq<Byte>)
    ensures KeySet([text]) == PartSet(Split(text)) && KeySet([]) == {}
  {
    assert [text][..0] == [];
  }

  /** What GetKeys sees of the text SetKeys writes. */
  function KeysRead(text: seq<Byte>): set<seq<Byte>> {
    if text == [] then {} else PartSet(Split(text))
  }

  /** The keys written come back exactly when none is empty or contains a separator. */
  lemma {:induction false} ReadsBackIff(ks: seq<seq<Byte>>, keys: set<seq<Byte>>)
    requires SortedList(ks, keys)
    ensures KeysRead(Join(ks)) == keys <==> forall k | k in keys :: Plain(k)
  {
    hide Split, Join, Less;
    if forall k | k in keys :: Plain(k) {
      if ks != [] {
        forall i | 0 <= i < |ks| ensures Plain(ks[i]) { assert ks[i] in keys; }
        SplitJoin(ks);
        JoinStart(ks);
      } else {
        JoinNothing();
      }
    } else {
      var k :| k in keys && !Plain(k);
      if KeysRead(Join(ks)) == keys {
        NotAPart(ks, keys, k);
      }
    }
  }

  lemma JoinNothing()
    ensures Join([]) == []
  {
  }

  /** A key that is not plain is not read back, or some other key is not. */
  lemma {:induction false} NotAPart(ks: seq<seq<Byte>>, keys: set<seq<Byte>>, k: seq<Byte>)
    requires SortedList(ks, keys) && k in keys && !Plain(k)
    ensures KeysRead(Join(ks)) != keys
  {
    hide Split, Join;
    var s := Join(ks);
    if KeysRead(s) == keys && s != [] {
      forall j | j in keys ensures HasNoSep(j) { PartHasNoSep(s, j); }
      assert k == [];
      forall i | 0 <= i < |ks| ensures HasNoSep(ks[i]) { assert ks[i] in keys; }
      JoinedStart(ks);
      PartNotEmpty(s, k);
    }
  }

  lemma PartHasNoSep(s: seq<Byte>, k: seq<Byte>)
    requires k in PartSet(Split(s))
    ensures HasNoSep(k)
  {
    hide Split;
    var i :| 0 <= i < |Split(s)| && Split(s)[i] == k;
    SplitParts(s, i);
  }

  lemma PartNotEmpty(s: seq<Byte>, k: seq<Byte>)
    requires k in PartSet(Split(s)) && s != [] && s[0] != KEY_SEP
    ensures k != []
  {
    hide Split;
    var i :| 0 <= i < |Split(s)| && Split(s)[i] == k;
    SplitParts(s, i);
  }

  /**
   * GetKeys after SetKeys(keys) of a rule with at most one key field: keys again exactly when all
   * of them are plain.
   */
  lemma GetAfterSet(es: seq<Entry>, ks: seq<seq<Byte>>, keys: set<seq<Byte>>)
    requires |KeyTexts(es)| <= 1 && SortedList(ks, keys)
    ensures KeySet(KeyTexts(WithKeys(es, Join(ks)))) == keys <==> forall k | k in keys :: Plain(k)
    ensures Others(WithKeys(es, Join(ks))) == Others(es) && |KeyTexts(WithKeys(es, Join(ks)))| <= 1
  {
    hide KeyTexts, Others, WithKeys, Join, SortedList;
    WithKeysKeepsOthers(es, Join(ks));
    ReadsBackIff(ks, keys);
    OneText(Join(ks));
  }

  // ---------------------------------------------------------------- the class

  datatype Outcome = Done | KeysTooLong | TooManyFields

  const UNUSED := Field(0, 0, 0, 0)

  class AuditRule {
    const table: array<Field>    // fields, fieldflags, values and _value_offsets, column by column
    const buf: array<Byte>
    var fieldCount: nat
    var buflen: nat

    ghost predicate InBounds()
      reads this
    {
      table.Length == AUDIT_MAX_FIELDS && fieldCount < AUDIT_MAX_FIELDS && buflen <= buf.Length < U32
    }

    ghost function View(): Packed
      requires InBounds()
      reads this, table, buf
    {
      Packed(table[..fieldCount], buf[..buflen])
    }

    ghost predicate Valid()
      reads this, table, buf
    {
      && InBounds() && Consistent(View())
      && forall i | fieldCount <= i < table.Length :: table[i] == UNUSED
    }

    /** add_str_field; the caller sees to it that the buffer has room for the text. */
    method AddStrField(id: nat, op: nat, text: seq<Byte>) returns (r: Outcome)
      requires Valid() && IsString(id) && buflen + |text| <= buf.Length
      modifies this, table, buf
      ensures Valid()
      ensures r == if old(fieldCount) >= AUDIT_MAX_FIELDS - 1 then TooManyFields else Done
      ensures r != Done ==> View() == old(View()) && buflen == old(buflen) && fieldCount == old(fieldCount)
      ensures r == Done ==> Entries(View()) == old(Entries(View())) + [String(id, op, text)]
    {
      if fieldCount >= AUDIT_MAX_FIELDS - 1 {
        return TooManyFields;
      }
      AddKeepsConsistent(View(), id, op, text);
      hide Consistent, Entries, IsString, Added;
      ghost var was, oldTable, oldBuf := View(), table[..], buf[..];
      var f := Field(id, op, |text|, buflen);
      table[fieldCount] := f;
      Store(buf, buflen, text);
      Appended(table[..], oldTable, fieldCount, [f]);
      Appended(buf[..], oldBuf, buflen, text);
      fieldCount := fieldCount + 1;
      buflen := buflen + |text|;
      assert table[..fieldCount] == was.fields + [f];
      assert buf[..buflen] == was.buf + text;
      AddedIs(was, id, op, text);
      r := Done;
    }

    /** remove_field of a string field: the strings behind it and the columns behind it move down. */
    method RemoveField(idx: nat)
      requires Valid() && idx < fieldCount && IsString(table[idx].id)
      modifies this, table, buf
      ensures Valid() && fieldCount == old(fieldCount) - 1 && buflen <= old(buflen)
      ensures Entries(View()) == old(Entries(View()))[..idx] + old(Entries(View()))[idx + 1..]
    {
      hide Consistent, Entries, IsString, ShiftedAll, ColumnsShifted, BytesMoved, Removed;
      RemoveKeepsConsistent(View(), idx);
      ghost var was := View();
      var len, offset := table[idx].value, table[idx].offset;
      MoveDown(offset, len);
      ShiftColumns(idx, len);
      RemovedView(was, old(table[..]), table[..], old(buf[..]), buf[..], idx);
      Shrink(len, table[..], buf[..], Removed(was, idx));
    }

    method Shrink(len: nat, ghost fields: seq<Field>, ghost bytes: seq<Byte>, ghost result: Packed)
      requires InBounds() && len <= buflen && 0 < fieldCount && fields == table[..] && bytes == buf[..]
      requires result == Packed(fields[..fieldCount - 1], bytes[..buflen - len]) && Consistent(result)
      requires forall k | fieldCount <= k < |fields| :: fields[k] == UNUSED
      modifies this, table
      ensures fieldCount == old(fieldCount) - 1 && buflen == old(buflen) - len && Valid() && View() == result
    {
      hide Consistent;
      table[fieldCount - 1] := UNUSED;
      fieldCount := fieldCount - 1;
      buflen := buflen - len;
    }

    /** memmove of what is behind a string, or memset when there is nothing. */
    method MoveDown(offset: nat, len: nat)
      requires buflen <= buf.Length && offset + len <= buflen
      modifies buf
      ensures |buf[..]| == |old(buf[..])| && BytesMoved(old(buf[..]), buf[..], buflen, offset, len)
    {
      var mlen := buflen - len - offset;
      if mlen > 0 {
        var i := 0;
        while i < mlen
          invariant 0 <= i <= mlen
          invariant forall k | offset <= k < offset + i :: buf[k] == old(buf[k + len])
          invariant forall k | 0 <= k < buf.Length && !(offset <= k < offset + i) :: buf[k] == old(buf[k])
        {
          buf[offset + i] := buf[offset + len + i];
          i := i + 1;
        }
      } else {
        var i := 0;
        while i < len
          invariant 0 <= i <= len
          invariant forall k | 0 <= k < offset :: buf[k] == old(buf[k])
        {
          buf[offset + i] := 0;
          i := i + 1;
        }
      }
      BytesAre(old(buf[..]), buf[..], buflen, offset, len);
    }

    method ShiftColumns(idx: nat, len: nat)
      requires InBounds() && idx < fieldCount
      modifies table
      ensures ColumnsShifted(old(table[..]), table[..], idx, fieldCount, len)
    {
      var i := idx + 1;
      while i < fieldCount
        invariant idx + 1 <= i <= fieldCount
        invariant forall k | 0 <= k < idx :: table[k] == old(table[k])
        invariant forall k | idx <= k < i - 1 :: table[k] == Shifted(old(table[k + 1]), len)
        invariant forall k | i - 1 <= k < table.Length :: table[k] == old(table[k])
      {
        table[i - 1] := Shifted(table[i], len);
        i := i + 1;
      }
    }

    /** fill_value_offsets: the offsets anew, from the values alone. */
    method FillValueOffsets()
      requires InBounds() && |View().buf| == Start(View().fields)
               && (forall i | fieldCount <= i < table.Length :: table[i] == UNUSED)
      modifies table
      ensures Valid() && |View().fields| == |old(View()).fields| && View().buf == old(View()).buf
      ensures old(Consistent(View())) ==> View() == old(View())
      ensures forall i | 0 <= i < fieldCount :: table[i] == old(table[i]).(offset := table[i].offset)
    {
      hide Start, IsString;
      var offset := 0;
      StartOfNone();
      for i := 0 to fieldCount
        invariant Start(table[..i]) == offset
        invariant forall k | 0 <= k < fieldCount :: table[k] == old(table[k]).(offset := table[k].offset)
        invariant forall k | 0 <= k < i :: table[k].offset == if IsString(table[k].id) then Start(table[..k]) else 0
        invariant forall k | fieldCount <= k < table.Length :: table[k] == UNUSED
      {
        var f := table[i];
        ghost var before := table[..i];
        table[i] := f.(offset := if IsString(f.id) then offset else 0);
        assert table[..i] == before && table[..i + 1] == before + [table[i]];
        StartNext(before, table[i]);
        forall k | 0 <= k < i ensures table[k].offset == if IsString(table[k].id) then Start(table[..k]) else 0 {
          assert table[..k] == before[..k];
        }
        if IsString(f.id) {
          offset := offset + f.value;
        }
      }
      SameSizes(old(table[..fieldCount]), table[..fieldCount]);
      forall k | 0 <= k < fieldCount ensures View().fields[k].offset == FilledOffset(View().fields, k) {
        assert View().fields[..k] == table[..k];
      }
      OffsetsAreDetermined(old(View()), View());
    }

    method GetKeys() returns (keys: set<seq<Byte>>)
      requires Valid()
      ensures keys == KeySet(KeyTexts(Entries(View())))
    {
      hide Split, KeySet, KeyTexts, Consistent, Start;
      keys := {};
      NoKeySet();
      ghost var es := Entries(View());
      for i := 0 to fieldCount
        invariant keys == KeySet(KeyTexts(es[..i]))
      {
        KeysNext(es, i);
        if table[i].id == AUDIT_FILTERKEY {
          InBuffer(View(), i);
          var text := buf[table[i].offset..table[i].offset + table[i].value];
          assert View().fields[i] == table[i] && View().buf[table[i].offset..table[i].offset + table[i].value] == text;
          var parts := SplitText(text);
          keys := keys + PartSet(parts);
        }
      }
      assert es[..fieldCount] == es;
    }

    /**
     * Replaces the first key field, or adds one. The result is that of the abstract operation on the
     * joined sorted keys; nothing changes when they are too long or there is no room for a field.
     */
    method SetKeys(keys: set<seq<Byte>>) returns (r: Outcome, ghost list: seq<seq<Byte>>)
      requires Valid() && buflen + MAX_KEY_LEN <= buf.Length
      modifies this, table, buf
      ensures Valid() && SortedList(list, keys)
      ensures r.KeysTooLong? <==> |Join(list)| > MAX_KEY_LEN
      ensures r != Done ==> View() == old(View())
      ensures r == Done ==> Entries(View()) == WithKeys(old(Entries(View())), Join(list))
      ensures r.TooManyFields? ==> old(fieldCount) == AUDIT_MAX_FIELDS - 1 && KeyTexts(old(Entries(View()))) == []
    {
      hide Consistent, Less, Join, KeyTexts, FirstKey, SortedList;
      var sorted := SortKeys(keys);
      list := sorted;
      var text := Join(sorted);
      if |text| > MAX_KEY_LEN {
        return KeysTooLong, list;
      }
      ghost var es := Entries(View());
      var k := FindKey();
      if k < fieldCount {
        RemoveField(k);
      } else {
        NoKeysBefore(es);
      }
      r := Done;
      if text != [] {
        r := AddStrField(AUDIT_FILTERKEY, AUDIT_EQUAL, text);
      }
    }

    method FindKey() returns (k: nat)
      requires Valid()
      ensures k == FirstKey(Entries(View())) <= fieldCount
      ensures k < fieldCount ==> table[k].id == AUDIT_FILTERKEY
      ensures k == fieldCount ==> forall i | 0 <= i < fieldCount :: !IsKey(Entries(View())[i])
    {
      hide Consistent;
      k := 0;
      while k < fieldCount && table[k].id != AUDIT_FILTERKEY
        invariant k <= fieldCount && forall i | 0 <= i < k :: table[i].id != AUDIT_FILTERKEY
      {
        k := k + 1;
      }
      ghost var es := Entries(View());
      assert forall i | 0 <= i < fieldCount :: IsKey(es[i]) <==> table[i].id == AUDIT_FILTERKEY;
    }
  }

  lemma NoKeySet()
    ensures KeySet(KeyTexts([])) == {}
  {
  }

  lemma KeysNext(es: seq<Entry>, i: nat)
    requires i < |es|
    ensures KeySet(KeyTexts(es[..i + 1])) == KeySet(KeyTexts(es[..i])) + if IsKey(es[i]) then PartSet(Split(es[i].text)) else {}
  {
    hide Split;
    assert es[..i + 1][..i] == es[..i] && es[..i + 1][i] == es[i];
    if IsKey(es[i]) {
      KeySetSnoc(KeyTexts(es[..i]), es[i].text);
    } else {
      assert KeyTexts(es[..i + 1]) == KeyTexts(es[..i]);
    }
  }

  lemma KeySetSnoc(texts: seq<seq<Byte>>, text: seq<Byte>)
    ensures KeySet(texts + [text]) == KeySet(texts) + PartSet(Split(text))
  {
    hide Split;
    assert (texts + [text])[..|texts|] == texts;
  }

  /** split, with the separator of keys. */
  method SplitText(s: seq<Byte>) returns (parts: seq<seq<Byte>>)
    ensures parts == Split(s)
  {
    hide Split, SkipSeps, FirstSep;
    parts := [];
    var idx := 0;
    var again := true;
    assert s[0..] == s;
    while again
      invariant 0 <= idx <= |s| && Split(s) == parts + if again then Split(s[idx..]) else []
      decreases again, |s| - idx
    {
      SplitTurn(s, idx);
      var e := FirstSep(s[idx..]);
      if e == |s| - idx {
        parts := parts + [s[idx..]];
        return;
      }
      var next := SkipSeps(s[idx..][e..]);
      Regroup(parts, s[idx..][..e], if next == [] then [] else Split(next));
      parts := parts + [s[idx..][..e]];
      idx := |s| - |next|;
      again := idx < |s|;
    }
  }

  lemma Regroup(parts: seq<seq<Byte>>, part: seq<Byte>, left: seq<seq<Byte>>)
    ensures parts + ([part] + left) == (parts + [part]) + left
  {
  }

  /** What one turn of split finds behind position idx. */
  lemma SplitTurn(s: seq<Byte>, idx: nat)
    requires idx <= |s|
    ensures var e, t := FirstSep(s[idx..]), s[idx..];
            if e == |t| then Split(t) == [t]
            else
              var next := SkipSeps(t[e..]);
              && |next| < |t| && next == s[|s| - |next|..]
              && Split(t) == [t[..e]] + if next == [] then [] else Split(next)
  {
    hide Split, SkipSeps, FirstSep;
    var t := s[idx..];
    SplitOnce(t);
    SkippedSuffix(t[FirstSep(t)..]);
  }

  lemma SplitOnce(s: seq<Byte>)
    ensures var i := FirstSep(s);
            if i == |s| then Split(s) == [s]
            else |SkipSeps(s[i..])| < |s[i..]|
                 && Split(s) == [s[..i]] + if SkipSeps(s[i..]) == [] then [] else Split(SkipSeps(s[i..]))
  {
  }

  lemma {:induction false} SkippedSuffix(s: seq<Byte>)
    ensures |SkipSeps(s)| <= |s| && SkipSeps(s) == s[|s| - |SkipSeps(s)|..]
  {
    if s != [] && s[0] == KEY_SEP { SkippedSuffix(s[1..]); }
  }

  /** The smallest of some keys. */
  method Smallest(keys: set<seq<Byte>>) returns (m: seq<Byte>)
    requires keys != {}
    ensures m in keys && forall k | k in keys && k != m :: Less(m, k)
  {
    hide Less;
    m :| m in keys;
    var rest := keys - {m};
    while rest != {}
      invariant m in keys && rest <= keys && m !in rest
      invariant forall k | k in keys && k != m && k !in rest :: Less(m, k)
      decreases |rest|
    {
      var k :| k in rest;
      rest := rest - {k};
      LessTotal(k, m);
      if Less(k, m) {
        forall j | j in keys && j != k && j !in rest ensures Less(k, j) {
          if j != m { LessChain(k, m, j); }
        }
        m := k;
      }
    }
  }

  lemma LessChain(a: seq<Byte>, b: seq<Byte>, c: seq<Byte>)
    requires Less(a, b) && Less(b, c)
    ensures Less(a, c)
  {
    LessTotal(a, b);
    LessTotal(b, c);
    LessTotal(a, c);
    if !Less(a, c) { LessTrans(a, b, c); LessTrans(c, a, b); }
  }

  /** The keys in order. */
  method SortKeys(keys: set<seq<Byte>>) returns (ks: seq<seq<Byte>>)
    ensures SortedList(ks, keys)
  {
    hide Less;
    ks := [];
    var rest := keys;
    while rest != {}
      invariant rest <= keys && (forall k | k in keys :: k in rest || k in ks)
      invariant forall i | 0 <= i < |ks| :: ks[i] in keys && forall k | k in rest :: Less(ks[i], k)
      invariant forall i, j | 0 <= i < j < |ks| :: Less(ks[i], ks[j])
      decreases |rest|
    {
      var m := Smallest(rest);
      ks := ks + [m];
      rest := rest - {m};
      assert forall k | k in keys && k !in rest :: k in ks;
    }
  }

  /** Of the n bytes in use the len bytes at offset are gone. */
  ghost predicate BytesMoved(before: seq<Byte>, now: seq<Byte>, n: nat, offset: nat, len: nat) {
    offset + len <= n <= |before| == |now| && now[..n - len] == before[..offset] + before[offset + len..n]
  }

  lemma BytesAre(before: seq<Byte>, now: seq<Byte>, n: nat, offset: nat, len: nat)
    requires offset + len <= n <= |before| == |now|
    requires forall k | 0 <= k < offset :: now[k] == before[k]
    requires forall k | offset <= k < n - len :: now[k] == before[k + len]
    ensures BytesMoved(before, now, n, offset, len)
  {
    var r := before[..offset] + before[offset + len..n];
    forall k | 0 <= k < |r| ensures now[k] == r[k] {}
    assert now[..n - len] == r;
  }

  /** The columns behind idx of the n in use have moved down by one. */
  ghost predicate ColumnsShifted(before: seq<Field>, now: seq<Field>, idx: nat, n: nat, len: nat) {
    && |before| == |now| && idx < n <= |now|
    && (forall k | 0 <= k < idx :: now[k] == before[k])
    && (forall k | idx <= k < n - 1 :: now[k] == Shifted(before[k + 1], len))
    && (forall k | n <= k < |now| :: now[k] == before[k])
  }

  lemma Appended<T>(now: seq<T>, before: seq<T>, n: nat, xs: seq<T>)
    requires n + |xs| <= |now| == |before| && (forall k | 0 <= k < n :: now[k] == before[k])
    requires forall k | 0 <= k < |xs| :: now[n + k] == xs[k]
    ensures now[..n + |xs|] == before[..n] + xs
  {
    var a, b := now[..n + |xs|], before[..n] + xs;
    forall i | 0 <= i < |a| ensures a[i] == b[i] {
      if i >= n { assert now[n + (i - n)] == xs[i - n]; }
    }
  }

  lemma AddedIs(p: Packed, id: nat, op: nat, text: seq<Byte>)
    ensures Added(p, id, op, text) == Packed(p.fields + [Field(id, op, |text|, |p.buf|)], p.buf + text)
  {
  }

  /** What the two moves leave is the packed form without field idx. */
  lemma RemovedView(was: Packed, before: seq<Field>, now: seq<Field>, bytesBefore: seq<Byte>, bytesNow: seq<Byte>,
                    idx: nat)
    requires |was.fields| <= |before| && was.fields == before[..|was.fields|]
    requires |was.buf| <= |bytesBefore| && was.buf == bytesBefore[..|was.buf|]
    requires idx < |was.fields| && was.fields[idx].offset + was.fields[idx].value <= |was.buf|
    requires ColumnsShifted(before, now, idx, |was.fields|, was.fields[idx].value)
    requires BytesMoved(bytesBefore, bytesNow, |was.buf|, was.fields[idx].offset, was.fields[idx].value)
    ensures |now| == |before| && |bytesNow| == |bytesBefore|
            && forall k | |was.fields| <= k < |now| :: now[k] == before[k]
    ensures Packed(now[..|was.fields| - 1], bytesNow[..|was.buf| - was.fields[idx].value]) == Removed(was, idx)
  {
    hide Shifted;
    var len := was.fields[idx].value;
    var r := was.fields[..idx] + ShiftedAll(was.fields[idx + 1..], len);
    forall k | 0 <= k < |r| ensures now[k] == r[k] {}
    assert now[..|was.fields| - 1] == r;
    var off, n := was.fields[idx].offset, |was.buf|;
    assert was.buf[..off] == bytesBefore[..off];
    assert was.buf[off + len..] == bytesBefore[off + len..n];
  }

  lemma StartOfNone()
    ensures Start([]) == 0
  {
  }

  /** Two consistent tables with the same columns but for the offsets have the same offsets. */
  lemma {:induction false} OffsetsAreDetermined(p: Packed, q: Packed)
    requires Consistent(q) && |p.fields| == |q.fields| && p.buf == q.buf
    requires forall i | 0 <= i < |p.fields| :: q.fields[i] == p.fields[i].(offset := q.fields[i].offset)
    ensures Consistent(p) ==> p == q
  {
    hide IsString, Start;
    if Consistent(p) {
      forall i | 0 <= i < |p.fields| ensures p.fields[i] == q.fields[i] {
        SameSizes(p.fields[..i], q.fields[..i]);
      }
      assert p.fields == q.fields;
    }
  }

  lemma {:induction false} SameSizes(fs: seq<Field>, gs: seq<Field>)
    requires |fs| == |gs| && forall i | 0 <= i < |fs| :: gs[i] == fs[i].(offset := gs[i].offset)
    ensures Start(fs) == Start(gs)
  {
    if fs != [] { SameSizes(fs[..|fs| - 1], gs[..|gs| - 1]); }
  }
}
