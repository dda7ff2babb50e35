/**
 * How little bash_escape_string does: a string that a shell reads as itself is left alone, and no
 * quoting or backslash is put where a lesser form would do.
 */
module BashForms {
  import opened Bytes
  import opened Shell
  import opened BashEscape
  import opened BashInverse
  import opened Wrappers

  // ---------------------------------------------------------------- reading gives no more than there was

  lemma EscapeGivesNoMore(s: seq<Byte>)
    requires ReadEscape(s).Found?
    ensures |ReadEscape(s).bytes| <= ReadEscape(s).len
  {
    if s[0] != LOWER_C { NoMoreThanRead(s); }
  }

  lemma {:induction false} ReadsNoMore(f: State, s: seq<Byte>)
    ensures From(f, s).Word? ==> |From(f, s).text| + |From(f, s).rest| <= |s|
    decreases |s|
  {
    if s != [] {
      match f {
        case Outside => BareNoMore(s);
        case Singly => ReadsNoMore(if s[0] == SQ then Outside else Singly, s[1..]);
        case Doubly => DoubleNoMore(s);
        case Dollar => AnsiNoMore(s);
        case Dead =>
          ReadsNoMore(if s[0] == SQ then Outside else Dead, s[1..]);
          if |s| > 1 { ReadsNoMore(Dead, s[2..]); }
      }
    }
  }

  lemma {:induction false} BareNoMore(s: seq<Byte>)
    requires s != []
    ensures Bare(s).Word? ==> |Bare(s).text| + |Bare(s).rest| <= |s|
    ensures Bare(s).Word? && (s[0] == BS || s[0] == SQ || s[0] == DQ || s[0] == DOLLAR) ==> |Bare(s).text| < |s|
    decreases |s|, 0
  {
    ReadsNoMore(Outside, s[1..]);
    ReadsNoMore(Singly, s[1..]);
    ReadsNoMore(Doubly, s[1..]);
    if |s| > 1 {
      ReadsNoMore(Outside, s[2..]);
      ReadsNoMore(Dollar, s[2..]);
    }
  }

  lemma {:induction false} DoubleNoMore(s: seq<Byte>)
    requires s != []
    ensures Double(s).Word? ==> |Double(s).text| + |Double(s).rest| <= |s|
    decreases |s|, 0
  {
    ReadsNoMore(Outside, s[1..]);
    ReadsNoMore(Doubly, s[1..]);
    if |s| > 1 { ReadsNoMore(Doubly, s[2..]); }
  }

  lemma {:induction false} AnsiNoMore(s: seq<Byte>)
    requires s != []
    ensures Ansi(s).Word? ==> |Ansi(s).text| + |Ansi(s).rest| <= |s|
    decreases |s|, 0
  {
    hide ReadEscape;
    ReadsNoMore(Outside, s[1..]);
    ReadsNoMore(Dollar, s[1..]);
    match ReadEscape(s[1..]) {
      case Unlisted =>
      case Nul(n) => ReadsNoMore(Dead, s[1 + n..]);
      case Found(bytes, n) =>
        EscapeGivesNoMore(s[1..]);
        ReadsNoMore(Dollar, s[1 + n..]);
    }
  }

  // ---------------------------------------------------------------- strings a shell reads as themselves

  /** A character that means something to a shell outside quotes. */
  predicate Special(c: Byte) {
    Meta(c) || c == BS || c == SQ || c == DQ || c == TICK || c == DOLLAR
  }

  /** A shell reads a string as itself exactly when no character of it means anything. */
  lemma {:induction false} ReadsItselfIff(a: seq<Byte>)
    ensures Bare(a) == Word(a, []) <==> forall i | 0 <= i < |a| :: !Special(a[i])
  {
    hide Single, Double, Ansi;
    if a != [] {
      var rest := a[1..];
      assert a == [a[0]] + rest;
      ReadsItselfIff(rest);
      if Special(a[0]) {
        BareNoMore(a);
      } else {
        assert Bare(a) == Then([a[0]], Bare(rest));
        ThenIs([a[0]], Bare(rest), rest);
        assert forall i | 0 <= i < |rest| :: rest[i] == a[i + 1];
        assert forall i | 0 < i < |a| :: a[i] == rest[i - 1];
      }
    }
  }

  predicate Printable(c: Byte) {
    32 <= c < 127
  }

  /** The exclamation mark. */
  const BANG: Byte := 33

  /** Printable ASCII without an exclamation mark. */
  predicate Ordinary(a: seq<Byte>) {
    forall i | 0 <= i < |a| :: Printable(a[i]) && a[i] != BANG
  }

  lemma OrdinarySurvives(a: seq<Byte>)
    requires Ordinary(a)
    ensures Survives(a) && !FormOf(a).InAnsi? && !FormOf(a).InSingle?
  {
    assert !Any(NeedsAnsi, a) && !Any(NeedsSingle, a);
  }

  lemma {:induction false} PlainIsItself(a: seq<Byte>)
    ensures Encode(Plain, a) == a
  {
    if a != [] {
      PlainIsItself(a[1..]);
      assert a == [a[0]] + a[1..];
    }
  }

  /**
   * A string of printable ASCII without an exclamation mark comes out unchanged exactly when a shell
   * reads it as itself.
   */
  lemma UnchangedIff(a: seq<Byte>)
    requires a != [] && Ordinary(a)
    ensures Escaped(a) == a <==> Bare(a) == Word(a, [])
  {
    hide FormOf, Encode, Bare, Survives;
    OrdinarySurvives(a);
    EndReads();
    EscapedReads(a, []);
    assert Escaped(a) + [] == Escaped(a) && a + [] == a;
    if Bare(a) == Word(a, []) {
      ReadsItselfIff(a);
      SpecialIff(a);
      PlainIsItself(a);
    }
  }

  /** The forms in terms of characters. */
  lemma SpecialIff(a: seq<Byte>)
    requires Ordinary(a)
    ensures FormOf(a).InDouble? <==> exists i :: 0 <= i < |a| && Meta(a[i])
    ensures FormOf(a).Plain? <==> forall i | 0 <= i < |a| :: !Special(a[i])
  {
    forall i | 0 <= i < |a|
      ensures NeedsQuote(a[i]) <==> Meta(a[i])
      ensures Special(a[i]) <==> NeedsQuote(a[i]) || NeedsEscape(a[i]) || IsQuote(a[i])
    {
    }
    assert !Any(NeedsAnsi, a) && !Any(NeedsSingle, a);
    if exists i :: 0 <= i < |a| && Meta(a[i]) {
      var i :| 0 <= i < |a| && Meta(a[i]);
      assert NeedsQuote(a[i]);
    }
    if i :| 0 <= i < |a| && Special(a[i]) {
      assert NeedsQuote(a[i]) || NeedsEscape(a[i]) || IsQuote(a[i]);
    }
  }

  // ---------------------------------------------------------------- the least form

  /** A shell reads the string back from its encoding in this form. */
  predicate CarriedBy(f: Form, a: seq<Byte>) {
    Bare(Open(f) + Encode(f, a) + Close(f)) == Word(a, [])
  }

  lemma {:induction false} EncodeJoin(f: Form, p: seq<Byte>, u: seq<Byte>)
    ensures Encode(f, p + u) == Encode(f, p) + Encode(f, u)
  {
    hide Code;
    if p == [] {
      assert p + u == u;
    } else {
      EncodeJoin(f, p[1..], u);
      assert (p + u)[1..] == p[1..] + u;
    }
  }

  /** The first character that would need quotes. */
  lemma {:induction false} FirstMeta(a: seq<Byte>) returns (k: nat)
    requires exists i :: 0 <= i < |a| && Meta(a[i])
    ensures k < |a| && Meta(a[k]) && forall i | 0 <= i < k :: !Meta(a[i])
  {
    if Meta(a[0]) {
      k := 0;
    } else {
      var i :| 0 <= i < |a| && Meta(a[i]);
      assert a[1..][i - 1] == a[i];
      k := FirstMeta(a[1..]);
      k := k + 1;
      assert forall j | 1 <= j < k :: a[j] == a[1..][j - 1];
    }
  }

  /** Backslashes alone carry the strings in which nothing ends a word. */
  lemma BackslashesCarryIff(a: seq<Byte>)
    requires Ordinary(a)
    ensures CarriedBy(BareEscaped, a) <==> forall i | 0 <= i < |a| :: !Meta(a[i])
  {
    hide Encode, Bare, Code;
    var f := BareEscaped;
    assert Open(f) + Encode(f, a) + Close(f) == Encode(f, a) + [];
    if exists i :: 0 <= i < |a| && Meta(a[i]) {
      var k := FirstMeta(a);
      var p, u := a[..k], a[k..];
      assert a == p + u;
      EncodeJoin(f, p, u);
      EncodeReads(f, p, Encode(f, u));
      MetaStops(u);
      assert Encode(f, a) + [] == Encode(f, p) + Encode(f, u);
    } else {
      EncodeReads(f, a, []);
      EndReads();
      assert a + [] == a;
    }
  }

  lemma MetaStops(u: seq<Byte>)
    requires u != [] && Meta(u[0]) && Printable(u[0])
    ensures Bare(Encode(BareEscaped, u)) == Word([], Encode(BareEscaped, u)) && Encode(BareEscaped, u) != []
  {
  }

  lemma DoubleCarries(a: seq<Byte>)
    requires Ordinary(a)
    ensures CarriedBy(InDouble, a)
  {
    hide Encode, Bare, Double, Code;
    var f := InDouble;
    EncodeReads(f, a, [DQ]);
    OpenReads(f, Encode(f, a) + [DQ]);
    CloseReads(f, []);
    EndReads();
    assert [DQ] + [] == [DQ] && a + [] == a;
    assert Open(f) + Encode(f, a) + Close(f) == Open(f) + (Encode(f, a) + [DQ]);
  }

  /** Some byte is neither printable ASCII nor NUL. */
  ghost predicate Unprintable(a: seq<Byte>) {
    exists i :: 0 <= i < |a| && !Printable(a[i])
  }

  /**
   * The form of a string is the least that will do. $'' is for bytes that are not printable ASCII,
   * and for an exclamation mark together with a single quote; single quotes are for other
   * exclamation marks. Without any of these: nothing, when a shell reads the string as itself;
   * backslashes, when it reads it back with them; and double quotes only when neither carries it.
   */
  lemma LeastForm(a: seq<Byte>)
    requires a != [] && NoNuls(a)
    ensures FormOf(a).InAnsi? <==> Unprintable(a) || (BANG in a && SQ in a)
    ensures FormOf(a).InSingle? <==> !Unprintable(a) && BANG in a && SQ !in a
    ensures !Unprintable(a) && BANG !in a ==>
              && (FormOf(a).Plain? <==> Bare(a) == Word(a, []))
              && (FormOf(a).BareEscaped? <==> Bare(a) != Word(a, []) && CarriedBy(BareEscaped, a))
              && (FormOf(a).InDouble? <==> !CarriedBy(BareEscaped, a)) && CarriedBy(InDouble, a)
  {
    hide CarriedBy, Bare;
    AnyIs(a);
    if !Unprintable(a) && BANG !in a {
      forall i | 0 <= i < |a| ensures Printable(a[i]) && a[i] != BANG { assert a[i] in a; }
      OrdinarySurvives(a);
      ReadsItselfIff(a);
      SpecialIff(a);
      BackslashesCarryIff(a);
      DoubleCarries(a);
    }
  }

  lemma AnyIs(a: seq<Byte>)
    requires NoNuls(a)
    ensures Any(NeedsAnsi, a) <==> Unprintable(a)
    ensures Any(NeedsSingle, a) <==> BANG in a
    ensures Any(IsQuote, a) <==> SQ in a
  {
    if Unprintable(a) {
      var i :| 0 <= i < |a| && !Printable(a[i]);
      assert NeedsAnsi(a[i]);
    }
    if BANG in a {
      var i :| 0 <= i < |a| && a[i] == BANG;
      assert NeedsSingle(a[i]);
    }
    if SQ in a {
      var i :| 0 <= i < |a| && a[i] == SQ;
      assert IsQuote(a[i]);
    }
  }

  // ---------------------------------------------------------------- no needless backslash

  /** In this form a shell reads the character as itself, whatever follows. */
  ghost predicate ReadsAlone(f: Form, c: Byte) {
    forall s: seq<Byte> :: ReadsBefore(f, c, s)
  }

  ghost predicate ReadsBefore(f: Form, c: Byte, s: seq<Byte>) {
    In(f, [c] + s) == Then([c], In(f, s))
  }

  /** A character gets a backslash exactly when a shell would not always read it as itself without one. */
  lemma BackslashIsNeeded(f: Form, c: Byte)
    requires Carries(f, c) && !f.InAnsi?
    ensures Code(f, c) == (if ReadsAlone(f, c) then [c] else [BS, c])
  {
    if Code(f, c) == [c] {
      forall s: seq<Byte> ensures ReadsBefore(f, c, s) { CodeReads(f, c, s); }
    } else if f.BareEscaped? {
      NotAloneBare(c);
    } else {
      NotAloneDouble(c);
    }
  }

  lemma NotAloneBare(c: Byte)
    requires c == BS || c == SQ || c == DQ || c == TICK || c == DOLLAR
    ensures !ReadsBefore(BareEscaped, c, [])
  {
    var s: seq<Byte> := [];
    assert [c] + s == [c] && [c][1..] == [];
    EndReads();
  }

  lemma NotAloneDouble(c: Byte)
    requires c == BS || c == DQ || c == TICK || c == DOLLAR
    ensures !ReadsBefore(InDouble, c, [DQ])
  {
    var s: seq<Byte> := [c] + [DQ];
    assert s[1..] == [DQ] && s[2..] == [] && [DQ][1..] == [];
    EndReads();
    assert Double([DQ]) == Bare([]);
    var nothing: seq<Byte> := [];
    assert Double(nothing).Fail?;
    if c == DQ {
      assert Bare([DQ]) == Double(nothing);
      assert Double(s) == Bare([DQ]);
    } else if c == BS {
      assert Double(s) == Then([DQ], Double(nothing));
    } else {
      assert Double(s).Fail?;
    }
  }

  /** Nothing is written as two single quotes. */
  lemma NothingIsQuotes()
    ensures Escaped([]) == [39, 39] && Unquote(Escaped([])) == Some([])
  {
    EmptyReads([]);
    assert [SQ, SQ] + [] == [SQ, SQ];
    EndReads();
  }

  /** In the $'' form a printable character but the single quote stands for itself, others for two or four characters. */
  lemma AnsiCodeIs(c: Byte)
    requires c != 0
    ensures Code(InAnsi, c) == [c] <==> Printable(c) && c != SQ
    ensures |Code(InAnsi, c)| == if Printable(c) && c != SQ then 1
                                 else if 7 <= c <= 13 || c == 27 || c == SQ then 2
                                 else 4
  {
  }
}
