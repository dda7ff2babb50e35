/**
 * Merging and comparing audit rules: MergeRules, DiffRules and what they are made of in
 * AuditRules.cpp. A rule is what those functions look at: the parts that make up its merge key,
 * its permission field, its system call mask and its keys.
 */
module AuditRules {
  import opened Wrappers

  datatype Mode = Delete | Prepend | Append

  /** Mode, action and filter list. */
  datatype Head = Head(mode: Mode, action: nat, filter: nat)

  const FILTER_USER := 0
  const FILTER_TASK := 1
  const FILTER_TYPE := 5

  /** A field other than arch, perm and key: a watched path or directory, or something else. */
  datatype Field = Path(text: string) | Other(text: string)

  datatype Rule = Rule(head: Head, arch: seq<string>, fields: seq<Field>, perm: Option<set<char>>, mask: set<nat>, keys: set<string>)

  /** The system calls GetSyscalls and IsSyscallAll look at: all words of the mask but the last. */
  const SYSCALLS := 2016
  const MASK_BITS := 2048

  function UpTo(n: nat): (r: seq<nat>)
    ensures |r| == n && forall i | 0 <= i < n :: r[i] == i
  {
    seq(n, i => i)
  }

  function Below(n: nat): set<nat> {
    set s | s in UpTo(n)
  }

  lemma InBelow(n: nat, s: nat)
    ensures s in Below(n) <==> s < n
  {
    if s < n { assert UpTo(n)[s] == s; }
  }

  function All(): set<nat> {
    Below(SYSCALLS)
  }

  function AllBits(): set<nat> {
    Below(MASK_BITS)
  }

  predicate IsSyscallAll(r: Rule) {
    All() <= r.mask
  }

  function GetSyscalls(r: Rule): set<nat> {
    r.mask * All()
  }

  function GetPerms(r: Rule): set<char> {
    if r.perm.Some? then r.perm.value else {}
  }

  /** AddPerms changes the permission field, if there is one. */
  function AddPerms(r: Rule, perms: set<char>): Rule {
    if r.perm.Some? then r.(perm := Some(r.perm.value + perms)) else r
  }

  function SetPerms(r: Rule, perms: set<char>): Rule {
    if r.perm.Some? then r.(perm := Some(perms)) else r
  }

  /** Its fields would make it a watch if its mask had every system call. */
  predicate CouldBeWatch(r: Rule) {
    && r.perm.Some? && r.arch == [] && (forall i | 0 <= i < |r.fields| :: r.fields[i].Path?)
    && r.head.filter != FILTER_USER && r.head.filter != FILTER_TASK && r.head.filter != FILTER_TYPE
  }

  predicate IsWatch(r: Rule) {
    CouldBeWatch(r) && IsSyscallAll(r)
  }

  datatype MergeKey = WatchKey(fields: seq<Field>) | RuleKey(head: Head, arch: seq<string>, fields: seq<Field>)

  /** CanonicalMergeKey. */
  function KeyOf(r: Rule): MergeKey {
    if IsWatch(r) then WatchKey(r.fields) else RuleKey(r.head, r.arch, r.fields)
  }

  // ---------------------------------------------------------------- merging and comparing two rules

  const MAX_KEY_LEN := 256

  ghost function TotalLen(ks: set<string>): nat {
    if ks == {} then 0 else var k :| k in ks; |k| + TotalLen(ks - {k})
  }

  /** The keys that SetKeys writes: an empty one leaves no trace, not even a separator. */
  function Written(ks: set<string>): set<string> {
    ks - {""}
  }

  /** The key string, with a separator between the keys, fits the kernel's limit. */
  ghost predicate KeysFit(ks: set<string>) {
    Written(ks) == {} || TotalLen(Written(ks)) + |Written(ks)| - 1 <= MAX_KEY_LEN
  }

  /** AddKeys, which writes nothing when there is no new key. */
  function AddedKeys(ks: set<string>, more: set<string>): set<string> {
    if more <= ks then ks else Written(ks + more)
  }

  /** merge_rule; None when SetKeys throws. */
  ghost function Merged(d: Rule, s: Rule): Option<Rule> {
    if !(s.keys <= d.keys) && !KeysFit(d.keys + s.keys) then None else Some(Combined(d, s))
  }

  ghost function Combined(d: Rule, s: Rule): Rule {
    var r := d.(keys := AddedKeys(d.keys, s.keys));
    if IsWatch(d) then AddPerms(r, GetPerms(s))
    else r.(mask := if IsSyscallAll(s) then AllBits() else d.mask + (GetSyscalls(s) - GetSyscalls(d)))
  }

  /** is_subset: a covers d. */
  predicate Covers(a: Rule, d: Rule) {
    if IsWatch(a) then GetPerms(d) <= GetPerms(a)
    else IsSyscallAll(a) || GetSyscalls(d) <= GetSyscalls(a)
  }

  /** diff_rule: what a lacks of d, with d's keys, as SetKeys writes them. */
  function Missing(a: Rule, d: Rule): Rule {
    var r := a.(keys := Written(d.keys));
    if IsWatch(a) then SetPerms(r, GetPerms(d) - GetPerms(a))
    else r.(mask := GetSyscalls(d) - GetSyscalls(a))
  }

  // ---------------------------------------------------------------- lists of rules

  /** A merged rule and the key it is found by: the key it had when it came in. */
  datatype Slot = Slot(key: MergeKey, rule: Rule)

  ghost predicate HasSlot(slots: seq<Slot>, k: MergeKey) {
    exists i :: 0 <= i < |slots| && slots[i].key == k
  }

  ghost predicate UniqueSlots(slots: seq<Slot>) {
    forall i, j | 0 <= i < j < |slots| :: slots[i].key != slots[j].key
  }

  function FindSlot(slots: seq<Slot>, k: MergeKey): (p: nat)
    ensures p <= |slots| && (p < |slots| ==> slots[p].key == k)
    ensures p == |slots| ==> forall i | 0 <= i < |slots| :: slots[i].key != k
    ensures forall i | 0 <= i < p :: slots[i].key != k
  {
    if slots == [] then 0
    else
      var n := |slots| - 1;
      var p := FindSlot(slots[..n], k);
      if p < n || slots[n].key == k then p else n + 1
  }

  /** One rule more. */
  ghost function Inserted(slots: seq<Slot>, r: Rule): Option<seq<Slot>> {
    var p := FindSlot(slots, KeyOf(r));
    if p == |slots| then Some(slots + [Slot(KeyOf(r), r)])
    else match Merged(slots[p].rule, r)
      case Some(m) => Some(slots[p := Slot(slots[p].key, m)])
      case None => None
  }

  /** MergeRules's loop from these slots on. */
  ghost function MergedFrom(slots: seq<Slot>, rs: seq<Rule>): Option<seq<Slot>> {
    if rs == [] then Some(slots)
    else match MergedFrom(slots, rs[..|rs| - 1])
      case Some(s) => Inserted(s, rs[|rs| - 1])
      case None => None
  }

  function Rules(slots: seq<Slot>): (rs: seq<Rule>)
    ensures |rs| == |slots| && forall i | 0 <= i < |slots| :: rs[i] == slots[i].rule
  {
    seq(|slots|, i requires 0 <= i < |slots| => slots[i].rule)
  }

  /** Where DiffRules finds a key: emplace keeps the first. */
  function FirstWith(rs: seq<Rule>, k: MergeKey): (p: nat)
    ensures p <= |rs| && (p < |rs| ==> KeyOf(rs[p]) == k)
    ensures forall i | 0 <= i < p :: KeyOf(rs[i]) != k
  {
    if rs == [] then 0
    else
      var n := |rs| - 1;
      var p := FirstWith(rs[..n], k);
      if p < n || KeyOf(rs[n]) == k then p else n + 1
  }

  /** What DiffRules returns for one desired rule. */
  function DiffOne(actual: seq<Rule>, d: Rule): seq<Rule> {
    var p := FirstWith(actual, KeyOf(d));
    if p == |actual| then [d] else if Covers(actual[p], d) then [] else [Missing(actual[p], d)]
  }

  function Diff(actual: seq<Rule>, desired: seq<Rule>): seq<Rule> {
    if desired == [] then [] else Diff(actual, desired[..|desired| - 1]) + DiffOne(actual, desired[|desired| - 1])
  }

  // ---------------------------------------------------------------- the loops

  lemma {:induction false} TotalLenAny(ks: set<string>, k: string)
    requires k in ks
    ensures TotalLen(ks) == |k| + TotalLen(ks - {k})
    decreases |ks|
  {
    var j :| j in ks && TotalLen(ks) == |j| + TotalLen(ks - {j});
    if j != k {
      TotalLenAny(ks - {j}, k);
      TotalLenAny(ks - {k}, j);
      assert ks - {j} - {k} == ks - {k} - {j};
    }
  }

  /** SetKeys's check of the joined length. */
  method CheckKeys(ks: set<string>) returns (ok: bool)
    ensures ok <==> KeysFit(ks)
  {
    var written := ks - {""};
    var len, rest := 0, written;
    while rest != {}
      invariant rest <= written && len + TotalLen(rest) == TotalLen(written)
      decreases |rest|
    {
      var k :| k in rest;
      TotalLenAny(rest, k);
      len := len + |k|;
      rest := rest - {k};
    }
    ok := written == {} || len + |written| - 1 <= MAX_KEY_LEN;
  }

  method MergeRule(d: Rule, s: Rule) returns (r: Option<Rule>)
    ensures r == Merged(d, s)
  {
    hide Below, CouldBeWatch, KeysFit, All, AllBits, IsSyscallAll;
    var m := d;
    if IsWatch(d) {
      var diff := GetPerms(s) - GetPerms(d);
      if diff != {} {
        m := AddPerms(m, diff);
      }
      assert GetPerms(s) - GetPerms(d) + GetPerms(d) == GetPerms(s) + GetPerms(d);
      assert d.perm.Some? ==> d.perm.value + diff == d.perm.value + GetPerms(s);
      assert d.perm.Some? && diff == {} ==> d.perm.value + GetPerms(s) == d.perm.value;
      assert m == AddPerms(d, GetPerms(s));
    } else {
      if IsSyscallAll(s) {
        m := m.(mask := AllBits());
      } else {
        var diff := GetSyscalls(s) - GetSyscalls(d);
        if diff != {} {
          m := m.(mask := m.mask + diff);
        }
      }
    }
    assert m == Combined(d, s).(keys := d.keys);
    var diff := s.keys - d.keys;
    if diff != {} {
      var ok := CheckKeys(d.keys + s.keys);
      if !ok {
        return None;
      }
      m := m.(keys := m.keys + diff - {""});
    }
    assert forall k | k in s.keys && k !in diff :: k in d.keys;
    assert m.keys == AddedKeys(d.keys, s.keys);
    r := Some(m);
  }

  /** The unordered map of MergeRules leads from each key to its slot. */
  ghost predicate Indexes(slots: seq<Slot>, indexes: map<MergeKey, nat>) {
    && UniqueSlots(slots)
    && (forall i | 0 <= i < |slots| :: slots[i].key in indexes && indexes[slots[i].key] == i)
    && (forall k | k in indexes :: indexes[k] < |slots| && slots[indexes[k]].key == k)
  }

  lemma FindIndexed(slots: seq<Slot>, indexes: map<MergeKey, nat>, k: MergeKey)
    requires Indexes(slots, indexes)
    ensures k in indexes ==> FindSlot(slots, k) == indexes[k]
    ensures k !in indexes ==> FindSlot(slots, k) == |slots|
  {
    var p := FindSlot(slots, k);
    if k in indexes {
      assert slots[indexes[k]].key == k;
    }
  }

  lemma {:induction false} NewKey(slots: seq<Slot>, indexes: map<MergeKey, nat>, r: Rule)
    requires Indexes(slots, indexes) && KeyOf(r) !in indexes
    ensures var s := slots + [Slot(KeyOf(r), r)];
            && Inserted(slots, r) == Some(s) && Rules(s) == Rules(slots) + [r] && Indexes(s, indexes[KeyOf(r) := |slots|])
  {
    hide KeyOf;
    FindIndexed(slots, indexes, KeyOf(r));
  }

  lemma {:induction false} KnownKey(slots: seq<Slot>, indexes: map<MergeKey, nat>, r: Rule)
    requires Indexes(slots, indexes) && KeyOf(r) in indexes
    ensures indexes[KeyOf(r)] < |slots|
    ensures var p := indexes[KeyOf(r)];
            match Merged(slots[p].rule, r)
            case None => Inserted(slots, r).None?
            case Some(m) =>
              var s := slots[p := Slot(slots[p].key, m)];
              Inserted(slots, r) == Some(s) && Rules(s) == Rules(slots)[p := m] && Indexes(s, indexes)
  {
    hide KeyOf, Merged;
    FindIndexed(slots, indexes, KeyOf(r));
    var p := indexes[KeyOf(r)];
    if Merged(slots[p].rule, r).Some? {
      var s := slots[p := Slot(slots[p].key, Merged(slots[p].rule, r).value)];
      forall i, j | 0 <= i < j < |s| ensures s[i].key != s[j].key { assert slots[i].key != slots[j].key; }
    }
  }

  lemma MergedNext(slots: seq<Slot>, rs: seq<Rule>, i: nat)
    requires i < |rs|
    ensures MergedFrom(slots, rs[..i + 1]) ==
            match MergedFrom(slots, rs[..i]) case Some(s) => Inserted(s, rs[i]) case None => None
  {
    assert rs[..i + 1][..i] == rs[..i];
  }

  /** The loop of MergeRules over one list of rules. */
  method MergeInto(rules: seq<Rule>, indexes: map<MergeKey, nat>, rs: seq<Rule>, ghost slots: seq<Slot>)
    returns (out: Option<seq<Rule>>, outIndexes: map<MergeKey, nat>, ghost outSlots: seq<Slot>)
    requires rules == Rules(slots) && Indexes(slots, indexes)
    ensures out.None? <==> MergedFrom(slots, rs).None?
    ensures out.Some? ==>
              && MergedFrom(slots, rs) == Some(outSlots) && out.value == Rules(outSlots)
              && Indexes(outSlots, outIndexes)
  {
    hide KeyOf, Merged, Inserted, Indexes, MergedFrom;
    var merged := rules;
    outIndexes, outSlots := indexes, slots;
    MergedNothing(slots);
    for i := 0 to |rs|
      invariant MergedFrom(slots, rs[..i]) == Some(outSlots) && merged == Rules(outSlots)
                && Indexes(outSlots, outIndexes)
    {
      MergedNext(slots, rs, i);
      var k := KeyOf(rs[i]);
      if k !in outIndexes {
        NewKey(outSlots, outIndexes, rs[i]);
        merged := merged + [rs[i]];
        outIndexes := outIndexes[k := |merged| - 1];
        outSlots := outSlots + [Slot(k, rs[i])];
      } else {
        KnownKey(outSlots, outIndexes, rs[i]);
        var p := outIndexes[k];
        var m := MergeRule(merged[p], rs[i]);
        if m.None? {
          FailsFrom(slots, rs, i + 1);
          return None, outIndexes, outSlots;
        }
        merged := merged[p := m.value];
        outSlots := outSlots[p := Slot(outSlots[p].key, m.value)];
      }
    }
    assert rs[..|rs|] == rs;
    out := Some(merged);
  }

  lemma MergedNothing(slots: seq<Slot>)
    ensures MergedFrom(slots, []) == Some(slots)
  {
  }

  lemma {:induction false} FailsFrom(slots: seq<Slot>, rs: seq<Rule>, n: nat)
    requires n <= |rs| && MergedFrom(slots, rs[..n]).None?
    ensures MergedFrom(slots, rs).None?
    decreases |rs|
  {
    if n < |rs| {
      assert rs[..|rs| - 1][..n] == rs[..n];
      FailsFrom(slots, rs[..|rs| - 1], n);
    } else {
      assert rs[..n] == rs;
    }
  }

  lemma {:induction false} MergedJoin(slots: seq<Slot>, a: seq<Rule>, b: seq<Rule>)
    ensures MergedFrom(slots, a + b) == match MergedFrom(slots, a) case Some(s) => MergedFrom(s, b) case None => None
  {
    if b == [] {
      assert a + b == a;
    } else {
      assert (a + b)[..|a + b| - 1] == a + b[..|b| - 1];
      MergedJoin(slots, a, b[..|b| - 1]);
    }
  }

  /** MergeRules of two lists; None when some SetKeys throws. */
  method MergeRules(rules1: seq<Rule>, rules2: seq<Rule>) returns (r: Option<seq<Rule>>)
    ensures r == match MergedFrom([], rules1 + rules2) case Some(s) => Some(Rules(s)) case None => None
  {
    MergedJoin([], rules1, rules2);
    var first, indexes, slots := MergeInto([], map[], rules1, []);
    if first.None? {
      return None;
    }
    var second, all, more := MergeInto(first.value, indexes, rules2, slots);
    r := second;
  }

  /** DiffRules. */
  method DiffRules(actual: seq<Rule>, desired: seq<Rule>) returns (rules: seq<Rule>)
    ensures rules == Diff(actual, desired)
  {
    hide KeyOf, Covers, Missing, Diff, FirstIn, FirstWith;
    var aidxs: map<MergeKey, nat> := map[];
    NothingIndexed();
    for i := 0 to |actual|
      invariant FirstIn(actual[..i], aidxs)
    {
      IndexNext(actual, i, aidxs);
      if KeyOf(actual[i]) !in aidxs {
        aidxs := aidxs[KeyOf(actual[i]) := i];
      }
    }
    assert actual[..|actual|] == actual;
    rules := [];
    for i := 0 to |desired|
      invariant rules == Diff(actual, desired[..i])
    {
      var d := desired[i];
      DiffNext(actual, desired, i);
      IndexSays(actual, aidxs, KeyOf(d));
      if KeyOf(d) !in aidxs {
        rules := rules + [d];
      } else {
        var a := actual[aidxs[KeyOf(d)]];
        if !Covers(a, d) {
          rules := rules + [Missing(a, d)];
        }
      }
    }
    assert desired[..|desired|] == desired;
  }

  /** The map leads from each key to the first rule that has it. */
  ghost predicate FirstIn(rs: seq<Rule>, indexes: map<MergeKey, nat>) {
    forall k :: (k in indexes <==> FirstWith(rs, k) < |rs|) && (k in indexes ==> indexes[k] == FirstWith(rs, k))
  }

  lemma NothingIndexed()
    ensures FirstIn([], map[]) && forall actual :: Diff(actual, []) == []
  {
  }

  lemma IndexNext(rs: seq<Rule>, i: nat, indexes: map<MergeKey, nat>)
    requires i < |rs| && FirstIn(rs[..i], indexes)
    ensures FirstIn(rs[..i + 1], if KeyOf(rs[i]) in indexes then indexes else indexes[KeyOf(rs[i]) := i])
  {
    hide KeyOf;
    assert rs[..i + 1][..i] == rs[..i];
  }

  lemma IndexSays(rs: seq<Rule>, indexes: map<MergeKey, nat>, k: MergeKey)
    requires FirstIn(rs, indexes)
    ensures k in indexes <==> FirstWith(rs, k) < |rs|
    ensures k in indexes ==> indexes[k] == FirstWith(rs, k)
  {
    hide FirstWith;
  }

  lemma DiffNext(actual: seq<Rule>, desired: seq<Rule>, i: nat)
    requires i < |desired|
    ensures Diff(actual, desired[..i + 1]) == Diff(actual, desired[..i]) + DiffOne(actual, desired[i])
  {
    hide DiffOne;
    assert desired[..i + 1][..i] == desired[..i];
  }

  // ---------------------------------------------------------------- the key string

  const KEY_SEP: char := 1 as char

  /** The key string of these keys. */
  function Joined(ks: seq<string>): string {
    if ks == [] then ""
    else if |ks| == 1 then ks[0]
    else Joined(ks[..|ks| - 1]) + [KEY_SEP] + ks[|ks| - 1]
  }

  ghost predicate Lists(ks: seq<string>, all: set<string>) {
    (forall i, j | 0 <= i < j < |ks| :: ks[i] != ks[j]) && forall k :: k in all <==> k in ks
  }

  lemma {:induction false} JoinedLength(ks: seq<string>, all: set<string>)
    requires Lists(ks, all)
    ensures |all| == |ks| && |Joined(ks)| == if ks == [] then 0 else TotalLen(all) + |ks| - 1
  {
    if ks == [] {
      assert all == {};
    } else {
      var n := |ks| - 1;
      var rest := all - {ks[n]};
      assert ks[n] in all && ks[n] in ks;
      forall k ensures k in rest <==> k in ks[..n] {
        if k in rest {
          var i :| 0 <= i < |ks| && ks[i] == k;
          assert ks[..n][i] == k;
        }
        if k in ks[..n] {
          var i :| 0 <= i < n && ks[..n][i] == k;
          assert ks[i] == k && k in ks;
        }
      }
      JoinedLength(ks[..n], rest);
      TotalLenAny(all, ks[n]);
      if n == 0 { assert rest == {}; }
    }
  }

  /** Keys fit exactly when the string that SetKeys joins from those that are not empty is not too long. */
  lemma KeysFitIff(ks: set<string>, written: seq<string>)
    requires Lists(written, ks - {""})
    ensures KeysFit(ks) <==> |Joined(written)| <= 256
  {
    JoinedLength(written, ks - {""});
    if written == [] { assert Written(ks) == {}; } else { assert written[0] in Written(ks); }
  }

  // ---------------------------------------------------------------- what the difference is

  /** A watch: permissions, paths and directories only, no other fields, and every system call. */
  predicate Watches(r: Rule) {
    && r.perm.Some? && r.arch == [] && (forall i | 0 <= i < |r.fields| :: r.fields[i].Path?)
    && r.head.filter !in {0, 1, 5} && forall n: nat | n < 2016 :: n in r.mask
  }

  /** Two watches have one merge key for the same fields, other rules for the same everything but what is merged. */
  lemma SameKeyIff(a: Rule, b: Rule)
    ensures KeyOf(a) == KeyOf(b) <==>
            && a.fields == b.fields && Watches(a) == Watches(b)
            && (Watches(a) || (a.head == b.head && a.arch == b.arch))
  {
    hide Below;
    WatchesIff(a);
    WatchesIff(b);
  }

  lemma WatchesIff(r: Rule)
    ensures IsWatch(r) <==> Watches(r)
  {
    hide Below;
    AllIs();
  }

  lemma AllIs()
    ensures forall n: nat :: n in All() <==> n < 2016
  {
    forall n: nat ensures n in All() <==> n < 2016 { InBelow(2016, n); }
  }

  predicate HasPerm(r: Rule, p: char) {
    r.perm.Some? && p in r.perm.value
  }

  /** The desired rule has a permission, or for a rule that is no watch a system call, that the actual one lacks. */
  ghost predicate Lacks(a: Rule, d: Rule) {
    if Watches(d) then exists p :: HasPerm(d, p) && !HasPerm(a, p)
    else exists n: nat :: n < 2016 && n in d.mask && n !in a.mask
  }

  /** r is the actual rule with what the desired one has and it lacks, nothing else, and the desired rule's keys. */
  ghost predicate IsDifference(a: Rule, d: Rule, r: Rule) {
    && r.head == a.head && r.arch == a.arch && r.fields == a.fields && r.keys == d.keys - {""}
    && if Watches(d) then r.mask == a.mask && forall p :: HasPerm(r, p) <==> HasPerm(d, p) && !HasPerm(a, p)
       else r.perm == a.perm && forall n: nat :: n in r.mask <==> n < 2016 && n in d.mask && n !in a.mask
  }

  /** Rule p is the first with the desired rule's merge key. */
  ghost predicate FirstMatch(actual: seq<Rule>, d: Rule, p: nat) {
    p < |actual| && KeyOf(actual[p]) == KeyOf(d) && forall i | 0 <= i < p :: KeyOf(actual[i]) != KeyOf(d)
  }

  /**
   * What there is to return for a desired rule: the rule itself when no actual one has its merge key;
   * nothing when the first that has it lacks nothing; otherwise the difference.
   */
  ghost predicate ExactFor(actual: seq<Rule>, d: Rule, part: seq<Rule>) {
    && ((forall i | 0 <= i < |actual| :: KeyOf(actual[i]) != KeyOf(d)) ==> part == [d])
    && (forall p: nat | FirstMatch(actual, d, p) ::
          if Lacks(actual[p], d) then |part| == 1 && IsDifference(actual[p], d, part[0]) else part == [])
  }

  lemma MissingIsDifference(a: Rule, d: Rule)
    requires KeyOf(a) == KeyOf(d)
    ensures Covers(a, d) <==> !Lacks(a, d)
    ensures IsDifference(a, d, Missing(a, d))
  {
    hide Below, Watches;
    AllIs();
    SameKeyIff(a, d);
    WatchesIff(a);
    if Watches(d) {
      PermsOfRule(a);
      PermsOfRule(d);
      PermsOfRule(Missing(a, d));
      WatchHasPerm(a);
    } else {
      hide All;
      assert forall n: nat | n < 2016 && n in d.mask && n !in a.mask :: n in GetSyscalls(d) && n !in GetSyscalls(a);
      assert forall n | n in GetSyscalls(d) && n !in GetSyscalls(a) :: n < 2016 && n in d.mask && n !in a.mask;
    }
  }

  lemma WatchHasPerm(a: Rule)
    requires Watches(a)
    ensures a.perm.Some?
  {
  }

  lemma PermsOfRule(r: Rule)
    ensures forall p :: p in GetPerms(r) <==> HasPerm(r, p)
  {
  }

  lemma {:induction false} DiffOneIsExact(actual: seq<Rule>, d: Rule)
    ensures ExactFor(actual, d, DiffOne(actual, d))
  {
    hide KeyOf, Covers, Missing, IsDifference, Lacks;
    var q := FirstWith(actual, KeyOf(d));
    if q < |actual| { MissingIsDifference(actual[q], d); }
    forall p: nat | FirstMatch(actual, d, p) ensures p == q {}
  }

  ghost function Concat(parts: seq<seq<Rule>>): seq<Rule> {
    if parts == [] then [] else Concat(parts[..|parts| - 1]) + parts[|parts| - 1]
  }

  /**
   * DiffRules returns, for each desired rule in turn, exactly the difference between it and the
   * actual rules.
   */
  lemma {:induction false} DiffIsExact(actual: seq<Rule>, desired: seq<Rule>) returns (parts: seq<seq<Rule>>)
    ensures |parts| == |desired| && Diff(actual, desired) == Concat(parts)
    ensures forall i | 0 <= i < |desired| :: ExactFor(actual, desired[i], parts[i])
  {
    hide DiffOne, ExactFor;
    if desired == [] {
      parts := [];
    } else {
      var n := |desired| - 1;
      var before := DiffIsExact(actual, desired[..n]);
      DiffOneIsExact(actual, desired[n]);
      parts := before + [DiffOne(actual, desired[n])];
      assert parts[..n] == before;
      forall i | 0 <= i < |desired| ensures ExactFor(actual, desired[i], parts[i]) {
        if i < n { assert ExactFor(actual, desired[..n][i], before[i]); }
      }
    }
  }

  /**
   * merge_rule adds what the other rule has, and nothing else: permissions to a watch, system calls
   * to another rule, which keeps its permissions; and the keys.
   */
  lemma CombinedIsUnion(d: Rule, s: Rule)
    ensures var m := Combined(d, s);
            && m.head == d.head && m.arch == d.arch && m.fields == d.fields && m.keys - {""} == (d.keys + s.keys) - {""}
            && (Watches(d) ==> m.mask == d.mask && forall p :: HasPerm(m, p) <==> HasPerm(d, p) || HasPerm(s, p))
            && (!Watches(d) ==> m.perm == d.perm
                                && forall n: nat | n < 2016 :: n in m.mask <==> n in d.mask || n in s.mask)
            && (!Watches(d) && IsSyscallAll(s) ==> forall n: nat :: n in m.mask <==> n < 2048)
            && (!Watches(d) && !IsSyscallAll(s) ==> forall n: nat | n >= 2016 :: n in m.mask <==> n in d.mask)
  {
    hide Below, Watches;
    AllIs();
    AllInBits();
    WatchesIff(d);
    if Watches(d) {
      WatchHasPerm(d);
    } else {
      assert forall n: nat | n < 2016 :: n in All();
      forall n: nat ensures n in AllBits() <==> n < 2048 { InBelow(2048, n); }
    }
  }

  // ---------------------------------------------------------------- one rule per key

  ghost predicate DistinctKeys(rs: seq<Rule>) {
    forall i, j | 0 <= i < j < |rs| :: KeyOf(rs[i]) != KeyOf(rs[j])
  }

  function SlotsOf(rs: seq<Rule>): (s: seq<Slot>)
    ensures |s| == |rs| && forall i | 0 <= i < |rs| :: s[i] == Slot(KeyOf(rs[i]), rs[i])
  {
    seq(|rs|, i requires 0 <= i < |rs| => Slot(KeyOf(rs[i]), rs[i]))
  }

  lemma FindUnique(slots: seq<Slot>, k: MergeKey, p: nat)
    requires UniqueSlots(slots) && p < |slots| && slots[p].key == k
    ensures FindSlot(slots, k) == p
  {
  }

  /** Rules with different keys are left as they are: merging a merged list changes nothing. */
  lemma {:induction false} MergeDistinct(rs: seq<Rule>)
    requires DistinctKeys(rs)
    ensures MergedFrom([], rs) == Some(SlotsOf(rs)) && Rules(SlotsOf(rs)) == rs && UniqueSlots(SlotsOf(rs))
  {
    hide KeyOf;
    if rs == [] {
    } else {
      var n := |rs| - 1;
      MergeDistinct(rs[..n]);
      var before := SlotsOf(rs[..n]);
      assert FindSlot(before, KeyOf(rs[n])) == n;
      assert SlotsOf(rs) == before + [Slot(KeyOf(rs[n]), rs[n])];
    }
  }

  /**
   * A rule that is a watch but for its mask, and one that completes the mask: merged, they are a
   * watch.
   */
  predicate Flips(a: Rule, d: Rule) {
    CouldBeWatch(a) && !IsSyscallAll(a) && All() <= a.mask + d.mask
  }

  /** Merging keeps a rule's merge key exactly when the rule does not become a watch by it. */
  lemma CombinedKeepsKey(d: Rule, s: Rule)
    ensures KeyOf(Combined(d, s)) == KeyOf(d) <==> !Flips(d, s)
    ensures Flips(d, s) ==> KeyOf(Combined(d, s)) == WatchKey(d.fields)
  {
    hide Below;
    AllInBits();
    if !IsWatch(d) && !IsSyscallAll(s) {
      assert d.mask + (GetSyscalls(s) - GetSyscalls(d)) <= d.mask + s.mask;
      forall n | n in All() && n in d.mask + s.mask ensures n in d.mask + (GetSyscalls(s) - GetSyscalls(d)) {}
    }
  }

  /** The permissions, system calls and keys of all the rules with merge key k. */
  function PermsOf(rs: seq<Rule>, k: MergeKey): set<char> {
    if rs == [] then {}
    else PermsOf(rs[..|rs| - 1], k) + if KeyOf(rs[|rs| - 1]) == k then GetPerms(rs[|rs| - 1]) else {}
  }

  function SyscallsOf(rs: seq<Rule>, k: MergeKey): set<nat> {
    if rs == [] then {}
    else SyscallsOf(rs[..|rs| - 1], k) + if KeyOf(rs[|rs| - 1]) == k then GetSyscalls(rs[|rs| - 1]) else {}
  }

  function KeysOf(rs: seq<Rule>, k: MergeKey): set<string> {
    if rs == [] then {}
    else KeysOf(rs[..|rs| - 1], k) + if KeyOf(rs[|rs| - 1]) == k then rs[|rs| - 1].keys else {}
  }

  /**
   * The first rule with this merge key is a watch but for its mask, and the rules with the key
   * complete it.
   */
  predicate Turns(rs: seq<Rule>, k: MergeKey) {
    var p := FirstWith(rs, k);
    p < |rs| && k.RuleKey? && CouldBeWatch(rs[p]) && All() <= SyscallsOf(rs, k)
  }

  /** The merge key of what the rules with this key are merged to. */
  function FinalKey(rs: seq<Rule>, k: MergeKey): MergeKey {
    if Turns(rs, k) then WatchKey(k.fields) else k
  }

  ghost predicate Occurs(rs: seq<Rule>, k: MergeKey) {
    exists i :: 0 <= i < |rs| && KeyOf(rs[i]) == k
  }

  /**
   * r is what the rules with key k are merged to. It has their keys, and the union of their
   * permissions when they are watches, or of their system calls when they are not and do not become
   * one; then it has the permissions of the first alone.
   */
  ghost predicate Gathers(r: Rule, k: MergeKey, rs: seq<Rule>) {
    && Occurs(rs, k) && KeyOf(r) == FinalKey(rs, k) && Written(r.keys) == Written(KeysOf(rs, k))
    && (k.WatchKey? ==> GetPerms(r) == PermsOf(rs, k))
    && (k.RuleKey? && !Turns(rs, k) ==> GetSyscalls(r) == SyscallsOf(rs, k) && SamePerm(r, k, rs))
    && (CouldBeWatch(r) <==> k.WatchKey? || CouldBeWatch(rs[FirstWith(rs, k)]))
  }

  predicate SamePerm(r: Rule, k: MergeKey, rs: seq<Rule>) {
    var p := FirstWith(rs, k);
    p < |rs| && r.perm == rs[p].perm
  }

  /** One slot for each merge key of rs, with all that has the key. */
  ghost predicate Complete(slots: seq<Slot>, rs: seq<Rule>) {
    && UniqueSlots(slots)
    && (forall i | 0 <= i < |slots| :: Gathers(slots[i].rule, slots[i].key, rs))
    && forall k | Occurs(rs, k) :: HasSlot(slots, k)
  }

  lemma UnionsSnoc(rs: seq<Rule>, r: Rule, k: MergeKey)
    ensures PermsOf(rs + [r], k) == PermsOf(rs, k) + if KeyOf(r) == k then GetPerms(r) else {}
    ensures SyscallsOf(rs + [r], k) == SyscallsOf(rs, k) + if KeyOf(r) == k then GetSyscalls(r) else {}
    ensures KeysOf(rs + [r], k) == KeysOf(rs, k) + if KeyOf(r) == k then r.keys else {}
    ensures Occurs(rs + [r], k) <==> Occurs(rs, k) || KeyOf(r) == k
  {
    hide KeyOf, GetPerms, GetSyscalls;
    var t := rs + [r];
    assert t[..|rs|] == rs && t[|rs|] == r;
    if Occurs(rs, k) {
      var i :| 0 <= i < |rs| && KeyOf(rs[i]) == k;
      assert t[i] == rs[i];
    }
  }

  lemma {:induction false} NothingBefore(rs: seq<Rule>, k: MergeKey)
    requires !Occurs(rs, k)
    ensures PermsOf(rs, k) == {} && SyscallsOf(rs, k) == {} && KeysOf(rs, k) == {}
  {
    hide KeyOf, GetPerms, GetSyscalls;
    if rs != [] {
      var n := |rs| - 1;
      assert rs == rs[..n] + [rs[n]];
      UnionsSnoc(rs[..n], rs[n], k);
      NothingBefore(rs[..n], k);
    }
  }

  lemma WrittenJoin(ks: set<string>, more: set<string>, all: set<string>)
    requires Written(ks) == Written(all)
    ensures Written(AddedKeys(ks, more)) == Written(all + more)
  {
    assert Written(all + more) == Written(all) + Written(more) && Written(ks + more) == Written(ks) + Written(more);
    assert Written(Written(ks + more)) == Written(ks + more);
  }

  lemma FirstSnoc(rs: seq<Rule>, r: Rule, k: MergeKey)
    ensures Occurs(rs, k) <==> FirstWith(rs, k) < |rs|
    ensures Occurs(rs, k) ==> FirstWith(rs + [r], k) == FirstWith(rs, k)
    ensures !Occurs(rs, k) && KeyOf(r) == k ==> FirstWith(rs + [r], k) == |rs|
  {
    hide KeyOf;
    assert (rs + [r])[..|rs|] == rs;
    if FirstWith(rs, k) < |rs| { assert KeyOf(rs[FirstWith(rs, k)]) == k; }
  }

  /** A rule of the slot's key adds what it has. */
  lemma CombinedGathers(m: Rule, k: MergeKey, r: Rule, rs: seq<Rule>)
    requires Gathers(m, k, rs) && KeyOf(r) == k
    ensures Gathers(Combined(m, r), k, rs + [r])
  {
    hide Below, Written, AddedKeys, KeyOf, FirstWith, CouldBeWatch;
    UnionsSnoc(rs, r, k);
    FirstSnoc(rs, r, k);
    WrittenJoin(m.keys, r.keys, KeysOf(rs, k));
    CombinedKeepsKey(m, r);
    CombinedHas(m, r);
    KeySays(m);
    KeySays(r);
    KeySays(rs[FirstWith(rs, k)]);
  }

  /** What a merge key says of its rule. */
  lemma KeySays(r: Rule)
    ensures KeyOf(r).WatchKey? <==> CouldBeWatch(r) && IsSyscallAll(r)
    ensures KeyOf(r).fields == r.fields
  {
    hide Below;
  }

  lemma CombinedHas(m: Rule, r: Rule)
    ensures CouldBeWatch(Combined(m, r)) == CouldBeWatch(m)
    ensures IsWatch(m) ==> GetPerms(Combined(m, r)) == GetPerms(m) + GetPerms(r)
    ensures !IsWatch(m) ==> GetSyscalls(Combined(m, r)) == GetSyscalls(m) + GetSyscalls(r) && Combined(m, r).perm == m.perm
    ensures Flips(m, r) <==> CouldBeWatch(m) && !IsSyscallAll(m) && All() <= GetSyscalls(m) + GetSyscalls(r)
    ensures IsSyscallAll(m) <==> All() <= GetSyscalls(m)
  {
    hide Below, AddedKeys;
    AllInBits();
    if IsSyscallAll(r) { assert GetSyscalls(r) == All() && AllBits() * All() == All() == GetSyscalls(m) + All(); }
  }

  lemma GathersOther(m: Rule, k: MergeKey, r: Rule, rs: seq<Rule>)
    requires Gathers(m, k, rs) && KeyOf(r) != k
    ensures Gathers(m, k, rs + [r])
  {
    hide KeyOf, GetPerms, GetSyscalls, CouldBeWatch, FirstWith, Written;
    UnionsSnoc(rs, r, k);
    FirstSnoc(rs, r, k);
    assert KeysOf(rs + [r], k) == KeysOf(rs, k);
    assert SyscallsOf(rs + [r], k) == SyscallsOf(rs, k) && PermsOf(rs + [r], k) == PermsOf(rs, k);
  }

  lemma GathersItself(r: Rule, rs: seq<Rule>)
    requires !Occurs(rs, KeyOf(r))
    ensures Gathers(r, KeyOf(r), rs + [r])
  {
    hide KeyOf, GetPerms, GetSyscalls, CouldBeWatch, FirstWith, Written;
    var k := KeyOf(r);
    NothingBefore(rs, k);
    UnionsSnoc(rs, r, k);
    FirstSnoc(rs, r, k);
    KeySays(r);
    CombinedHas(r, r);
    assert KeysOf(rs + [r], k) == r.keys;
    assert SyscallsOf(rs + [r], k) == GetSyscalls(r) && PermsOf(rs + [r], k) == GetPerms(r);
  }

  lemma {:induction false} InsertCompletes(slots: seq<Slot>, rs: seq<Rule>, r: Rule)
    requires Complete(slots, rs) && Inserted(slots, r).Some?
    ensures Complete(Inserted(slots, r).value, rs + [r])
  {
    hide KeyOf, Gathers, Combined, KeysFit;
    var k := KeyOf(r);
    var after := Inserted(slots, r).value;
    var p := FindSlot(slots, k);
    forall j ensures Occurs(rs + [r], j) <==> Occurs(rs, j) || j == k { UnionsSnoc(rs, r, j); }
    forall i | 0 <= i < |slots| && i != p ensures Gathers(slots[i].rule, slots[i].key, rs + [r]) && slots[i].key != k {
      if p < |slots| && slots[i].key == k { SameSlot(slots, i, p); }
      GathersOther(slots[i].rule, slots[i].key, r, rs);
    }
    if p < |slots| {
      CombinedGathers(slots[p].rule, k, r, rs);
      KeysStay(slots, after, p);
    } else {
      assert !HasSlot(slots, k) && !Occurs(rs, k);
      GathersItself(r, rs);
      KeysGrow(slots, Slot(k, r));
    }
  }

  lemma {:induction false} KeysStay(slots: seq<Slot>, after: seq<Slot>, p: nat)
    requires UniqueSlots(slots) && p < |slots| && |after| == |slots| && after == slots[p := after[p]]
             && after[p].key == slots[p].key
    ensures UniqueSlots(after) && forall k :: HasSlot(slots, k) ==> HasSlot(after, k)
  {
    forall i, j | 0 <= i < j < |after| ensures after[i].key != after[j].key { assert slots[i].key != slots[j].key; }
    forall k | HasSlot(slots, k) ensures HasSlot(after, k) {
      var i :| 0 <= i < |slots| && slots[i].key == k;
      assert after[i].key == k;
    }
  }

  lemma {:induction false} KeysGrow(slots: seq<Slot>, s: Slot)
    requires UniqueSlots(slots) && forall i | 0 <= i < |slots| :: slots[i].key != s.key
    ensures UniqueSlots(slots + [s]) && HasSlot(slots + [s], s.key)
            && forall k :: HasSlot(slots, k) ==> HasSlot(slots + [s], k)
  {
    var after := slots + [s];
    assert after[|slots|].key == s.key;
    forall k | HasSlot(slots, k) ensures HasSlot(after, k) {
      var i :| 0 <= i < |slots| && slots[i].key == k;
      assert after[i].key == k;
    }
  }

  /** MergeRules: one rule for each merge key, which gathers all that has the key. */
  lemma {:induction false} MergeGathers(rs: seq<Rule>)
    requires MergedFrom([], rs).Some?
    ensures Complete(MergedFrom([], rs).value, rs)
  {
    hide Gathers, Inserted;
    if rs == [] {
    } else {
      var n := |rs| - 1;
      MergeGathers(rs[..n]);
      assert rs == rs[..n] + [rs[n]];
      InsertCompletes(MergedFrom([], rs[..n]).value, rs[..n], rs[n]);
    }
  }

  /** No merge key of the rules turns into another one's. */
  ghost predicate StayApart(rs: seq<Rule>) {
    forall k, j | Occurs(rs, k) && Occurs(rs, j) && k != j :: FinalKey(rs, k) != FinalKey(rs, j)
  }

  /**
   * Merging what has been merged changes nothing exactly when no rule that becomes a watch in the
   * first merge meets another one of the same fields; and merging no more than that never throws.
   */
  lemma {:induction false} MergeIdempotentIff(rs: seq<Rule>)
    requires MergedFrom([], rs).Some?
    ensures var merged := Rules(MergedFrom([], rs).value);
            MergedFrom([], merged) == Some(SlotsOf(merged)) <==> StayApart(rs)
    ensures var merged := Rules(MergedFrom([], rs).value);
            (MergedFrom([], merged).Some? && Rules(MergedFrom([], merged).value) == merged) <==> StayApart(rs)
  {
    hide KeyOf, FinalKey, Inserted;
    MergeGathers(rs);
    var slots := MergedFrom([], rs).value;
    var merged := Rules(slots);
    ApartIff(rs, slots);
    if StayApart(rs) {
      MergeDistinct(merged);
    } else if MergedFrom([], merged).Some? {
      MergeShrinks(merged);
    }
  }

  lemma {:induction false} ApartIff(rs: seq<Rule>, slots: seq<Slot>)
    requires Complete(slots, rs)
    ensures StayApart(rs) <==> DistinctKeys(Rules(slots))
  {
    hide KeyOf, FinalKey, Turns, FirstWith;
    var merged := Rules(slots);
    if StayApart(rs) {
      forall i, j | 0 <= i < j < |merged| ensures KeyOf(merged[i]) != KeyOf(merged[j]) {
        assert slots[i].key != slots[j].key;
        assert Gathers(slots[i].rule, slots[i].key, rs) && Gathers(slots[j].rule, slots[j].key, rs);
      }
    } else {
      var k, l :| Occurs(rs, k) && Occurs(rs, l) && k != l && FinalKey(rs, k) == FinalKey(rs, l);
      var p :| 0 <= p < |slots| && slots[p].key == k;
      var q :| 0 <= q < |slots| && slots[q].key == l;
      assert Gathers(slots[p].rule, slots[p].key, rs) && Gathers(slots[q].rule, slots[q].key, rs);
      assert KeyOf(merged[p]) == KeyOf(merged[q]);
    }
  }

  /** Rules of the same key are merged, and are then fewer. */
  lemma {:induction false} MergeShrinks(rs: seq<Rule>)
    requires MergedFrom([], rs).Some?
    ensures |MergedFrom([], rs).value| <= |rs|
    ensures |MergedFrom([], rs).value| == |rs| ==> DistinctKeys(rs)
  {
    hide KeyOf, Merged;
    if rs != [] {
      var n := |rs| - 1;
      MergeShrinks(rs[..n]);
      var slots := MergedFrom([], rs[..n]).value;
      if |MergedFrom([], rs).value| == |rs| {
        MergeDistinct(rs[..n]);
        assert FindSlot(slots, KeyOf(rs[n])) == n;
        forall i, j | 0 <= i < j < |rs| ensures KeyOf(rs[i]) != KeyOf(rs[j]) {
          if j == n {
            assert slots[i].key == KeyOf(rs[i]);
          } else {
            assert KeyOf(rs[..n][i]) != KeyOf(rs[..n][j]);
          }
        }
      }
    }
  }

  // ---------------------------------------------------------------- convergence

  lemma MergeWithMissing(a: Rule, d: Rule)
    requires KeyOf(a) == KeyOf(d) && !Covers(a, d) && !Flips(a, d)
    ensures KeyOf(Missing(a, d)) == KeyOf(a)
    ensures KeyOf(Combined(a, Missing(a, d))) == KeyOf(a) && Covers(Combined(a, Missing(a, d)), d)
  {
    hide Below;
    AllInBits();
    var e := Missing(a, d);
    var m := Combined(a, e);
    if IsWatch(a) {
      assert GetPerms(m) == GetPerms(a) + (GetPerms(d) - GetPerms(a));
    } else if !IsSyscallAll(e) {
      assert GetSyscalls(d) <= a.mask + GetSyscalls(e);
    }
  }

  lemma AllInBits()
    ensures All() <= AllBits()
  {
    forall s | s in All() ensures s in AllBits() {
      InBelow(SYSCALLS, s);
      InBelow(MASK_BITS, s);
    }
  }

  lemma MergeFlips(a: Rule, d: Rule)
    requires KeyOf(a) == KeyOf(d) && Flips(a, d)
    ensures KeyOf(a).RuleKey? && !Covers(a, d)
    ensures KeyOf(Missing(a, d)) == KeyOf(a) ==> KeyOf(Combined(a, Missing(a, d))).WatchKey?
    ensures KeyOf(Missing(a, d)) == KeyOf(a) || KeyOf(Missing(a, d)).WatchKey?
  {
    hide Below;
    AllInBits();
    var s :| s in All() && s !in a.mask;
    assert s in GetSyscalls(d) && s !in GetSyscalls(a);
    var e := Missing(a, d);
    assert All() <= a.mask + GetSyscalls(e);
  }

  lemma {:induction false} FirstIs(rs: seq<Rule>, p: nat)
    requires DistinctKeys(rs) && p < |rs|
    ensures FirstWith(rs, KeyOf(rs[p])) == p
  {
    hide KeyOf;
  }

  /** The rule list so far, while no rule flips: the first n desired rules are covered, the others' rules untouched. */
  ghost predicate Converging(actual: seq<Rule>, desired: seq<Rule>, n: nat, slots: seq<Slot>) {
    && UniqueSlots(slots) && |actual| <= |slots|
    && (forall i | 0 <= i < |actual| :: slots[i].key == KeyOf(actual[i]))
    && (forall i | 0 <= i < |slots| :: KeyOf(slots[i].rule) == slots[i].key)
    && (forall j | 0 <= j < n && j < |desired| :: Met(slots, desired[j]))
    && (forall j | n <= j < |desired| :: Untouched(actual, slots, desired[j]))
  }

  ghost predicate Met(slots: seq<Slot>, d: Rule) {
    exists p :: 0 <= p < |slots| && slots[p].key == KeyOf(d) && Covers(slots[p].rule, d)
  }

  ghost predicate Untouched(actual: seq<Rule>, slots: seq<Slot>, d: Rule) {
    (forall i | 0 <= i < |actual| && i < |slots| && KeyOf(actual[i]) == KeyOf(d) :: slots[i].rule == actual[i])
    && ((forall i | 0 <= i < |actual| :: KeyOf(actual[i]) != KeyOf(d)) ==> !HasSlot(slots, KeyOf(d)))
  }

  ghost predicate NoFlips(actual: seq<Rule>, desired: seq<Rule>) {
    forall i, j | 0 <= i < |actual| && 0 <= j < |desired| && KeyOf(actual[i]) == KeyOf(desired[j]) ::
      !Flips(actual[i], desired[j])
  }

  /** A slot other than the one of d's key is not concerned by d. */
  lemma OtherSlot(slots: seq<Slot>, p: nat, s: Slot, d: Rule)
    requires UniqueSlots(slots) && p < |slots| && s.key == slots[p].key && s.key != KeyOf(d)
    ensures UniqueSlots(slots[p := s])
    ensures Met(slots, d) ==> Met(slots[p := s], d)
    ensures HasSlot(slots[p := s], KeyOf(d)) ==> HasSlot(slots, KeyOf(d))
  {
    var t := slots[p := s];
    if Met(slots, d) {
      var q :| 0 <= q < |slots| && slots[q].key == KeyOf(d) && Covers(slots[q].rule, d);
      assert t[q].key == KeyOf(d) && Covers(t[q].rule, d);
    }
    if HasSlot(t, KeyOf(d)) {
      var q :| 0 <= q < |t| && t[q].key == KeyOf(d);
      assert slots[q].key == KeyOf(d);
    }
  }

  lemma NewSlot(slots: seq<Slot>, s: Slot, d: Rule)
    requires UniqueSlots(slots) && !HasSlot(slots, s.key)
    ensures UniqueSlots(slots + [s])
    ensures Met(slots, d) ==> Met(slots + [s], d)
    ensures s.key != KeyOf(d) && HasSlot(slots + [s], KeyOf(d)) ==> HasSlot(slots, KeyOf(d))
  {
    var t := slots + [s];
    forall i | 0 <= i < |slots| ensures slots[i].key != s.key {}
    if Met(slots, d) {
      var q :| 0 <= q < |slots| && slots[q].key == KeyOf(d) && Covers(slots[q].rule, d);
      assert t[q].key == KeyOf(d) && Covers(t[q].rule, d);
    }
    if s.key != KeyOf(d) && HasSlot(t, KeyOf(d)) {
      var q :| 0 <= q < |t| && t[q].key == KeyOf(d);
      assert slots[q].key == KeyOf(d);
    }
  }

  /** Inserting what DiffRules returned for desired rule n. */
  lemma ConvergesStep(actual: seq<Rule>, desired: seq<Rule>, n: nat, slots: seq<Slot>, after: seq<Slot>)
    requires DistinctKeys(actual) && DistinctKeys(desired) && NoFlips(actual, desired)
    requires Converging(actual, desired, n, slots) && n < |desired|
    requires MergedFrom(slots, DiffOne(actual, desired[n])) == Some(after)
    ensures Converging(actual, desired, n + 1, after)
  {
    hide KeyOf, Covers, Missing, Combined, Flips, KeysFit;
    var d := desired[n];
    var k := KeyOf(d);
    var q := FirstWith(actual, k);
    if q < |actual| && Covers(actual[q], d) {
      assert after == slots;
      assert slots[q].key == k && Covers(slots[q].rule, d);
    } else if q < |actual| {
      assert !Flips(actual[q], d);
      MergeWithMissing(actual[q], d);
      var e := Missing(actual[q], d);
      MergeOne(slots, e);
      FindUnique(slots, k, q);
      assert slots[q].rule == actual[q];
      ConvergesChange(actual, desired, n, slots, after, q, Slot(k, Combined(actual[q], e)));
    } else {
      MergeOne(slots, d);
      assert !HasSlot(slots, k);
      NoSlotFound(slots, k);
      ConvergesNew(actual, desired, n, slots, after, Slot(k, d));
    }
  }

  lemma MergeOne(slots: seq<Slot>, r: Rule)
    ensures MergedFrom(slots, [r]) == Inserted(slots, r)
  {
    assert [r][..0] == [];
  }

  lemma ConvergesChange(actual: seq<Rule>, desired: seq<Rule>, n: nat, slots: seq<Slot>, after: seq<Slot>, q: nat,
                        s: Slot)
    requires DistinctKeys(actual) && DistinctKeys(desired) && Converging(actual, desired, n, slots) && n < |desired|
    requires q < |actual| && s.key == slots[q].key == KeyOf(desired[n]) == KeyOf(s.rule) && Covers(s.rule, desired[n])
    requires after == slots[q := s]
    ensures Converging(actual, desired, n + 1, after)
  {
    hide KeyOf, Covers;
    assert after[q].key == KeyOf(desired[n]) && Covers(after[q].rule, desired[n]);
    forall j | 0 <= j < |desired| && j != n ensures KeyOf(desired[j]) != s.key {}
    forall j | 0 <= j < n ensures Met(after, desired[j]) {
      assert Met(slots, desired[j]);
      OtherSlot(slots, q, s, desired[j]);
    }
    forall j | n < j < |desired| ensures Untouched(actual, after, desired[j]) {
      assert Untouched(actual, slots, desired[j]);
      OtherSlot(slots, q, s, desired[j]);
    }
    forall i, j | 0 <= i < j < |after| ensures after[i].key != after[j].key {
      assert slots[i].key != slots[j].key;
    }
  }

  lemma ConvergesNew(actual: seq<Rule>, desired: seq<Rule>, n: nat, slots: seq<Slot>, after: seq<Slot>, s: Slot)
    requires DistinctKeys(desired) && Converging(actual, desired, n, slots) && n < |desired|
    requires s == Slot(KeyOf(desired[n]), desired[n]) && !HasSlot(slots, s.key)
    requires after == slots + [s]
    ensures Converging(actual, desired, n + 1, after)
  {
    hide KeyOf;
    CoversItself(desired[n]);
    assert after[|slots|].key == KeyOf(desired[n]) && Covers(after[|slots|].rule, desired[n]);
    forall j | 0 <= j < |desired| && j != n ensures KeyOf(desired[j]) != s.key {}
    forall j | 0 <= j < n ensures Met(after, desired[j]) {
      assert Met(slots, desired[j]);
      NewSlot(slots, s, desired[j]);
    }
    forall j | n < j < |desired| ensures Untouched(actual, after, desired[j]) {
      assert Untouched(actual, slots, desired[j]);
      NewSlot(slots, s, desired[j]);
    }
    NewSlot(slots, s, desired[n]);
  }

  lemma CoversItself(d: Rule)
    ensures Covers(d, d)
  {
  }

  lemma NoSlotFound(slots: seq<Slot>, k: MergeKey)
    requires !HasSlot(slots, k)
    ensures FindSlot(slots, k) == |slots|
  {
  }

  /** Merging in what DiffRules returned for the first n desired rules. */
  lemma {:induction false} Converges(actual: seq<Rule>, desired: seq<Rule>, n: nat, after: seq<Slot>)
    requires DistinctKeys(actual) && DistinctKeys(desired) && NoFlips(actual, desired) && n <= |desired|
    requires MergedFrom(SlotsOf(actual), Diff(actual, desired[..n])) == Some(after)
    ensures Converging(actual, desired, n, after)
    decreases n
  {
    hide KeyOf, Covers, DiffOne, Flips, Inserted;
    if n == 0 {
      assert desired[..0] == [];
      StartConverging(actual, desired);
    } else {
      assert desired[..n][..n - 1] == desired[..n - 1];
      var before := Diff(actual, desired[..n - 1]);
      MergedJoin(SlotsOf(actual), before, DiffOne(actual, desired[n - 1]));
      var slots := MergedFrom(SlotsOf(actual), before).value;
      Converges(actual, desired, n - 1, slots);
      ConvergesStep(actual, desired, n - 1, slots, after);
    }
  }

  lemma StartConverging(actual: seq<Rule>, desired: seq<Rule>)
    requires DistinctKeys(actual)
    ensures Converging(actual, desired, 0, SlotsOf(actual))
  {
    hide KeyOf, Covers;
    var slots := SlotsOf(actual);
    forall j | 0 <= j < |desired| ensures Untouched(actual, slots, desired[j]) {}
  }

  /** When every desired rule is met by the slot of its key, there is nothing left to add. */
  lemma {:induction false} NothingMissing(slots: seq<Slot>, desired: seq<Rule>)
    requires UniqueSlots(slots) && forall i | 0 <= i < |slots| :: KeyOf(slots[i].rule) == slots[i].key
    requires forall j | 0 <= j < |desired| :: Met(slots, desired[j])
    ensures Diff(Rules(slots), desired) == []
  {
    hide KeyOf, Covers;
    if desired != [] {
      var n := |desired| - 1;
      var d := desired[n];
      NothingMissing(slots, desired[..n]);
      var p :| 0 <= p < |slots| && slots[p].key == KeyOf(d) && Covers(slots[p].rule, d);
      var rs := Rules(slots);
      assert DistinctKeys(rs);
      FirstIs(rs, p);
      assert rs[p] == slots[p].rule;
    }
  }

  // ---------------------------------------------------------------- rules that flip do not converge

  /** The slot of an actual rule that is not a watch changes only for the desired rule of its key. */
  lemma {:induction false} FlipStep(actual: seq<Rule>, desired: seq<Rule>, n: nat, i: nat, slots: seq<Slot>,
                                    after: seq<Slot>)
    requires DistinctKeys(actual) && n < |desired| && i < |actual| && KeyOf(actual[i]).RuleKey?
    requires KeyOf(actual[i]) != KeyOf(desired[n])
    requires Tracking(actual, slots)
    requires MergedFrom(slots, DiffOne(actual, desired[n])) == Some(after)
    ensures |after| >= |slots| && after[i] == slots[i]
  {
    hide KeyOf, Covers, Missing, Combined, KeysFit;
    var d := desired[n];
    var q := FirstWith(actual, KeyOf(d));
    if q == |actual| {
      MergeOne(slots, d);
    } else if !Covers(actual[q], d) {
      var e := Missing(actual[q], d);
      MissingKey(actual[q], d);
      MergeOne(slots, e);
    }
  }

  /** What diff_rule returns has the key of the rule it came from, or is a watch. */
  lemma MissingKey(a: Rule, d: Rule)
    ensures KeyOf(Missing(a, d)) == KeyOf(a) || KeyOf(Missing(a, d)).WatchKey?
  {
    hide Below;
  }

  /** Merging keeps a rule's key or makes it a watch. */
  lemma CombinedKey(a: Rule, e: Rule)
    ensures KeyOf(Combined(a, e)) == KeyOf(a) || KeyOf(Combined(a, e)).WatchKey?
  {
    hide Below;
  }

  /**
   * In all runs: slots have their own keys, the first ones those of the actual rules; a rule has
   * its slot's key or is a watch.
   */
  ghost predicate Tracking(actual: seq<Rule>, slots: seq<Slot>) {
    && UniqueSlots(slots) && |actual| <= |slots|
    && (forall i | 0 <= i < |actual| :: slots[i].key == KeyOf(actual[i]))
    && forall i | 0 <= i < |slots| :: KeyOf(slots[i].rule) == slots[i].key || KeyOf(slots[i].rule).WatchKey?
  }

  lemma {:induction false} InsertTracks(actual: seq<Rule>, slots: seq<Slot>, r: Rule)
    requires Tracking(actual, slots) && Inserted(slots, r).Some?
    ensures Tracking(actual, Inserted(slots, r).value)
  {
    hide KeyOf, Combined, KeysFit;
    var p := FindSlot(slots, KeyOf(r));
    if p < |slots| {
      CombinedKey(slots[p].rule, r);
      assert KeyOf(slots[p].rule) == slots[p].key || KeyOf(slots[p].rule).WatchKey?;
      assert Inserted(slots, r).value == slots[p := Slot(slots[p].key, Combined(slots[p].rule, r))];
      TrackChange(actual, slots, p, Slot(slots[p].key, Combined(slots[p].rule, r)));
    } else {
      TrackNew(actual, slots, Slot(KeyOf(r), r));
    }
  }

  lemma {:induction false} TrackChange(actual: seq<Rule>, slots: seq<Slot>, p: nat, s: Slot)
    requires Tracking(actual, slots) && p < |slots| && s.key == slots[p].key
             && (KeyOf(s.rule) == s.key || KeyOf(s.rule).WatchKey?)
    ensures Tracking(actual, slots[p := s])
  {
    hide KeyOf;
    var t := slots[p := s];
    forall i, j | 0 <= i < j < |t| ensures t[i].key != t[j].key { assert slots[i].key != slots[j].key; }
  }

  lemma {:induction false} TrackNew(actual: seq<Rule>, slots: seq<Slot>, s: Slot)
    requires Tracking(actual, slots) && KeyOf(s.rule) == s.key && forall i | 0 <= i < |slots| :: slots[i].key != s.key
    ensures Tracking(actual, slots + [s])
  {
    hide KeyOf;
  }

  lemma {:induction false} DiffOneTracks(actual: seq<Rule>, slots: seq<Slot>, d: Rule, after: seq<Slot>)
    requires Tracking(actual, slots) && MergedFrom(slots, DiffOne(actual, d)) == Some(after)
    ensures Tracking(actual, after)
  {
    hide KeyOf, Covers, Missing, Inserted;
    if DiffOne(actual, d) != [] {
      var r := DiffOne(actual, d)[0];
      assert DiffOne(actual, d) == [r];
      MergeOne(slots, r);
      InsertTracks(actual, slots, r);
    }
  }

  /** What becomes of a rule that flips. */
  predicate Spoilt(a: Rule, now: Rule) {
    now == a || KeyOf(now).WatchKey?
  }

  lemma {:induction false} FlipStays(actual: seq<Rule>, desired: seq<Rule>, n: nat, i: nat, j: nat, after: seq<Slot>)
    requires DistinctKeys(actual) && DistinctKeys(desired) && n <= |desired| && i < |actual| && j < |desired|
    requires KeyOf(actual[i]) == KeyOf(desired[j]) && Flips(actual[i], desired[j])
    requires MergedFrom(SlotsOf(actual), Diff(actual, desired[..n])) == Some(after)
    ensures Tracking(actual, after)
    ensures if n <= j then after[i].rule == actual[i] else Spoilt(actual[i], after[i].rule)
    decreases n
  {
    hide KeyOf, Covers, DiffOne, Flips, Inserted;
    if n == 0 {
      assert desired[..0] == [];
      StartTracking(actual);
    } else {
      assert desired[..n][..n - 1] == desired[..n - 1];
      var before := Diff(actual, desired[..n - 1]);
      MergedJoin(SlotsOf(actual), before, DiffOne(actual, desired[n - 1]));
      var slots := MergedFrom(SlotsOf(actual), before).value;
      FlipStays(actual, desired, n - 1, i, j, slots);
      DiffOneTracks(actual, slots, desired[n - 1], after);
      MergeFlips(actual[i], desired[j]);
      if n - 1 == j {
        FlipHappens(actual, desired[j], i, slots, after);
      } else {
        assert KeyOf(desired[n - 1]) != KeyOf(desired[j]);
        FlipStep(actual, desired, n - 1, i, slots, after);
      }
    }
  }

  lemma StartTracking(actual: seq<Rule>)
    requires DistinctKeys(actual)
    ensures Tracking(actual, SlotsOf(actual))
  {
    hide KeyOf;
  }

  lemma {:induction false} FlipHappens(actual: seq<Rule>, d: Rule, i: nat, slots: seq<Slot>, after: seq<Slot>)
    requires DistinctKeys(actual) && i < |actual| && KeyOf(actual[i]) == KeyOf(d) && Flips(actual[i], d)
    requires Tracking(actual, slots) && slots[i].rule == actual[i]
    requires MergedFrom(slots, DiffOne(actual, d)) == Some(after)
    ensures |after| >= |slots| && Spoilt(actual[i], after[i].rule)
  {
    hide KeyOf, Covers, Missing, Combined, Flips, KeysFit;
    MergeFlips(actual[i], d);
    FirstIs(actual, i);
    var e := Missing(actual[i], d);
    MergeOne(slots, e);
    assert slots[i].key == KeyOf(actual[i]);
    if KeyOf(e) == KeyOf(d) {
      FindUnique(slots, KeyOf(d), i);
    }
  }

  /** A spoilt rule does not cover the desired rule, and no other rule has its key. */
  lemma {:induction false} StillMissing(actual: seq<Rule>, d: Rule, i: nat, slots: seq<Slot>)
    requires i < |actual| && KeyOf(actual[i]) == KeyOf(d) && Flips(actual[i], d)
    requires Tracking(actual, slots) && Spoilt(actual[i], slots[i].rule)
    ensures DiffOne(Rules(slots), d) != []
  {
    hide KeyOf, Covers, Flips;
    MergeFlips(actual[i], d);
    var rs := Rules(slots);
    var q := FirstWith(rs, KeyOf(d));
    if q < |rs| {
      assert rs[q] == slots[q].rule && KeyOf(slots[q].rule) == slots[q].key;
      assert slots[i].key == KeyOf(d);
      SameSlot(slots, q, i);
    }
  }

  lemma SameSlot(slots: seq<Slot>, p: nat, q: nat)
    requires UniqueSlots(slots) && p < |slots| && q < |slots| && slots[p].key == slots[q].key
    ensures p == q
  {
  }

  lemma {:induction false} DiffHas(actual: seq<Rule>, desired: seq<Rule>, j: nat)
    requires j < |desired| && DiffOne(actual, desired[j]) != []
    ensures Diff(actual, desired) != []
    decreases |desired|
  {
    hide DiffOne;
    if j < |desired| - 1 {
      assert desired[..|desired| - 1][j] == desired[j];
      DiffHas(actual, desired[..|desired| - 1], j);
    }
  }

  /**
   * Convergence: for merged actual and desired rules, merging in what DiffRules returned leaves
   * DiffRules nothing to return, exactly when no desired rule completes the mask of an actual rule
   * of its key that is a watch but for the mask.
   */
  lemma ConvergesIff(actual: seq<Rule>, desired: seq<Rule>, after: seq<Slot>)
    requires DistinctKeys(actual) && DistinctKeys(desired)
    requires MergedFrom([], actual + Diff(actual, desired)) == Some(after)
    ensures Diff(Rules(after), desired) == [] <==> NoFlips(actual, desired)
  {
    hide KeyOf, Covers, Flips, DiffOne, Inserted;
    MergeDistinct(actual);
    MergedJoin([], actual, Diff(actual, desired));
    assert desired[..|desired|] == desired;
    if NoFlips(actual, desired) {
      Converges(actual, desired, |desired|, after);
      NothingMissing(after, desired);
    } else {
      var i, j :| 0 <= i < |actual| && 0 <= j < |desired| && KeyOf(actual[i]) == KeyOf(desired[j]) && Flips(actual[i], desired[j]);
      FlipStays(actual, desired, |desired|, i, j, after);
      StillMissing(actual, desired[j], i, after);
      DiffHas(Rules(after), desired, j);
    }
  }

  /** A rule with a permission field and no system call yet, and a desired rule of its key for all of them. */
  lemma FlipIsPossible() returns (a: Rule, d: Rule)
    ensures KeyOf(a) == KeyOf(d) && Flips(a, d)
    ensures a == Rule(Head(Append, 2, 4), [], [], Some({'w'}), {}, {}) && d == a.(perm := None, mask := All())
  {
    hide Below;
    a := Rule(Head(Append, 2, 4), [], [], Some({'w'}), {}, {});
    d := a.(perm := None, mask := All());
    InBelow(SYSCALLS, 0);
    assert 0 in All();
  }

  /** Merging is not idempotent: together these two are a watch, which meets the third in a second merge. */
  lemma MergeCanMeet() returns (rs: seq<Rule>)
    ensures MergedFrom([], rs).Some? && !StayApart(rs)
  {
    hide Below, MergedFrom, Turns, StayApart, Flips;
    var a, d := FlipIsPossible();
    var w := a.(mask := All());
    rs := [a, d, w];
    TurnsAt(a, d, w, rs);
    WatchKeyIs(w);
    assert rs[0] == a && rs[2] == w;
    TheyMeet(rs, KeyOf(a), KeyOf(w));
    NoKeysMerge(rs);
  }

  lemma TurnsAt(a: Rule, d: Rule, w: Rule, rs: seq<Rule>)
    requires KeyOf(a) == KeyOf(d) && Flips(a, d) && All() <= d.mask && rs == [a, d, w]
    ensures KeyOf(a) == RuleKey(a.head, a.arch, a.fields) && Turns(rs, KeyOf(a))
  {
    hide Below, KeyOf, FirstWith, SyscallsOf, CouldBeWatch;
    var k := KeyOf(a);
    FirstOfAll(rs, k);
    AmongSyscalls(rs, 1, k);
    RuleKeyIs(a);
  }

  lemma FirstOfAll(rs: seq<Rule>, k: MergeKey)
    requires rs != [] && KeyOf(rs[0]) == k
    ensures FirstWith(rs, k) == 0
  {
    hide KeyOf;
  }

  lemma {:induction false} AmongSyscalls(rs: seq<Rule>, i: nat, k: MergeKey)
    requires i < |rs| && KeyOf(rs[i]) == k
    ensures GetSyscalls(rs[i]) <= SyscallsOf(rs, k)
  {
    hide KeyOf, GetSyscalls;
    if i < |rs| - 1 { AmongSyscalls(rs[..|rs| - 1], i, k); }
  }

  lemma RuleKeyIs(a: Rule)
    requires !IsWatch(a)
    ensures KeyOf(a) == RuleKey(a.head, a.arch, a.fields)
  {
    hide Below;
  }

  lemma TheyMeet(rs: seq<Rule>, k: MergeKey, l: MergeKey)
    requires |rs| > 2 && KeyOf(rs[0]) == k && KeyOf(rs[2]) == l
    requires k.RuleKey? && Turns(rs, k) && l == WatchKey(k.fields)
    ensures !StayApart(rs)
  {
    hide KeyOf, FirstWith;
    assert Occurs(rs, k) && Occurs(rs, l) && FinalKey(rs, k) == FinalKey(rs, l);
  }

  lemma WatchKeyIs(w: Rule)
    requires IsWatch(w)
    ensures KeyOf(w) == WatchKey(w.fields)
  {
    hide Below;
  }

  /** Without keys nothing throws. */
  lemma {:induction false} NoKeysMerge(rs: seq<Rule>)
    requires forall i | 0 <= i < |rs| :: rs[i].keys == {}
    ensures MergedFrom([], rs).Some?
  {
    hide KeyOf, Combined;
    if rs != [] { NoKeysMerge(rs[..|rs| - 1]); }
  }
}
