/**
 * When bash_escape_string is undone by reading: always but for backslashes in the $'' form, which is
 * the only form that does not escape them, and there for those that begin no escape sequence. The
 * harder half says that a backslash that begins one is never read back by luck, however the rest of
 * the string goes on.
 */
module BashInverse {
  import opened Bytes
  import opened Shell
  import opened BashEscape
  import opened Wrappers

  /** What follows the opening of the $'' form. */
  function Rest(t: seq<Byte>): seq<Byte> {
    AnsiText(t, [])
  }

  /** Where the reading of it may be: outside quotes, in one of the three kinds, or behind a NUL. */
  datatype State = Outside | Singly | Doubly | Dollar | Dead

  function From(f: State, s: seq<Byte>): Read {
    match f
    case Outside => Bare(s)
    case Singly => Single(s)
    case Doubly => Double(s)
    case Dollar => Ansi(s)
    case Dead => Cut(s)
  }

  lemma RestFront(t: seq<Byte>)
    requires t != []
    ensures Rest(t) == Code(InAnsi, t[0]) + Rest(t[1..])
  {
    AnsiTextFront(t, []);
  }

  predicate Alnum(c: Byte) {
    48 <= c <= 57 || 65 <= c <= 90 || 97 <= c <= 122
  }

  ghost predicate AllAlnum(s: seq<Byte>) {
    forall i | 0 <= i < |s| :: Alnum(s[i])
  }

  /** The letters or digits. */
  function Tail(c: Byte): (s: seq<Byte>)
    requires Coded(c)
    ensures Code(InAnsi, c) == [BS] + s && s != []
    ensures forall i | 0 <= i < |s| :: Alnum(s[i])
  {
    Code(InAnsi, c)[1..]
  }

  lemma OneAlnum(f: State, c: Byte, s: seq<Byte>)
    requires Alnum(c)
    ensures From(f, [c] + s) == if f.Dead? then From(f, s) else Then([c], From(f, s))
  {
    var t := [c] + s;
    assert t[0] == c && t[1..] == s;
    match f {
      case Dollar => assert Ansi(t) == Then([c], Ansi(s));
      case Singly => assert Single(t) == Then([c], Single(s));
      case Doubly => assert Double(t) == Then([c], Double(s));
      case Outside => assert Bare(t) == Then([c], Bare(s));
      case Dead => assert Cut(t) == Cut(s);
    }
  }

  /** Text of letters and digits is read as it is. */
  lemma {:induction false} AlnumReads(f: State, y: seq<Byte>, s: seq<Byte>)
    requires AllAlnum(y)
    ensures From(f, y + s) == if f.Dead? then From(f, s) else Then(y, From(f, s))
  {
    hide From;
    if y == [] {
      assert y + s == s;
      ThenNothing(From(f, s));
    } else {
      assert y + s == [y[0]] + (y[1..] + s) && [y[0]] + y[1..] == y;
      OneAlnum(f, y[0], y[1..] + s);
      AlnumReads(f, y[1..], s);
      ThenTwice([y[0]], y[1..], From(f, s));
    }
  }

  /**
   * The reading of x's code yields y, R reads what follows. If all this gives v and then the input
   * itself, then R gives what is left of v and x, and the input behind x; or x ended inside y.
   */
  lemma Advance(v: seq<Byte>, x: seq<Byte>, t: seq<Byte>, y: seq<Byte>, r: Read)
    requires Then(y, r) == Word(v + (x + t), []) && x != []
    ensures |y| < |v| + |x| ==> r == Word((v + x)[|y|..] + t, [])
    ensures forall i | 0 <= i < |y| && i < |v| + |x| :: y[i] == (v + x)[i]
  {
    var all := v + (x + t);
    assert y + r.text == all;
    if |y| < |v| + |x| {
      assert r.text == all[|y|..];
      assert all == (v + x) + t;
      assert all[|y|..] == (v + x)[|y|..] + t;
    }
    forall i | 0 <= i < |y| && i < |v| + |x| ensures y[i] == (v + x)[i] {
      assert (y + r.text)[i] == all[i];
    }
  }

  /** The reading of this in some state gives more than t itself, namely v in front of it. */
  ghost predicate Longer(f: State, v: seq<Byte>, t: seq<Byte>) {
    From(f, Rest(t)) == Word(v + t, [])
  }

  /** One step of the reading, from x to y; what follows is shorter. */
  ghost predicate Step(f: State, t: seq<Byte>, x: seq<Byte>, y: seq<Byte>, g: State) {
    && 0 < |x| <= |t| && x == t[..|x|]
    && From(f, Rest(t)) == Then(y, From(g, Rest(t[|x|..])))
  }

  lemma StepsOn(f: State, v: seq<Byte>, t: seq<Byte>, x: seq<Byte>, y: seq<Byte>, g: State)
    requires Step(f, t, x, y, g) && Longer(f, v, t)
    ensures |y| < |v| + |x| ==> Longer(g, (v + x)[|y|..], t[|x|..])
    ensures forall i | 0 <= i < |y| && i < |v| + |x| :: y[i] == (v + x)[i]
  {
    assert t == x + t[|x|..];
    Advance(v, x, t[|x|..], y, From(g, Rest(t[|x|..])));
  }

  // ---------------------------------------------------------------- the steps in each state

  /**
   * No step makes up for what the reading is ahead: it is not longer, or it loses a character.
   */
  ghost predicate Loses(f: State, x: seq<Byte>, y: seq<Byte>) {
    x != [] && (|y| <= |x| || LosesOne(x, y) || (f.Doubly? && x == [SQ] && y == [BS, SQ]))
  }

  ghost predicate LosesOne(x: seq<Byte>, y: seq<Byte>) {
    exists i | 0 <= i < |x| :: x[i] !in y
  }

  /** In double quotes the reading is never ahead by just a backslash. */
  ghost predicate NotByBackslash(f: State, x: seq<Byte>, y: seq<Byte>, g: State) {
    g.Doubly? && x != [] && x[|x| - 1] == BS ==> f.Doubly? && ((x == [BS] && y == [BS]) || |y| < |x|)
  }

  /** A reading that fails, ends at an unquoted character, or gives no more than there was. */
  predicate Stops(r: Read, t: seq<Byte>) {
    r.Fail? || r.rest != [] || |r.text| <= |t|
  }

  lemma NextSingle(t: seq<Byte>) returns (x: seq<Byte>, y: seq<Byte>, g: State)
    requires t != []
    ensures Step(Singly, t, x, y, g) && Loses(Singly, x, y) && NotByBackslash(Singly, x, y, g)
  {
    hide Code, Encode;
    var c, s := t[0], Rest(t[1..]);
    RestFront(t);
    x, g := t[..1], Singly;
    if c == SQ {
      y, g := [BS], Outside;
      QuoteCode();
      assert Rest(t)[1..] == [SQ] + s && Rest(t)[1..][1..] == s;
      assert Single(Rest(t)) == Then(y, Bare(s));
    } else if Coded(c) {
      y := [BS] + Tail(c);
      assert Rest(t)[1..] == Tail(c) + s;
      AlnumReads(Singly, Tail(c), s);
      ThenTwice([BS], Tail(c), Single(s));
      assert Single(Rest(t)) == Then(y, Single(s));
    } else {
      y := [c];
      RawCode(c);
      assert Rest(t)[1..] == s;
      assert Single(Rest(t)) == Then(y, Single(s));
    }
  }

  lemma QuoteCode()
    ensures Code(InAnsi, SQ) == [BS, SQ]
  {
  }

  /** Outside quotes; a raw backslash takes the next character with it. */
  lemma NextBare(t: seq<Byte>) returns (done: bool, x: seq<Byte>, y: seq<Byte>, g: State)
    requires t != [] && NoNuls(t)
    ensures done ==> Stops(Bare(Rest(t)), t)
    ensures !done ==>
              && Step(Outside, t, x, y, g) && Loses(Outside, x, y)
              && NotByBackslash(Outside, x, y, g)
  {
    hide Code, Encode;
    var c, s := t[0], Rest(t[1..]);
    RestFront(t);
    done, x, g := false, t[..1], Outside;
    if c == SQ {
      y := [SQ];
      QuoteCode();
      assert Rest(t)[1..] == [SQ] + s && Rest(t)[2..] == s;
      assert Bare(Rest(t)) == Then(y, Bare(s));
    } else if Coded(c) {
      y := Tail(c);
      BareCoded(c, s);
      assert Bare(Rest(t)) == Then(y, Bare(s));
    } else {
      RawCode(c);
      assert Rest(t)[1..] == s && Rest(t)[0] == c;
      if c == BS {
        done, x, y, g := NextBareEscape(t);
      } else if Meta(c) {
        done, y := true, [];
      } else if c == DQ {
        y, g := [], Doubly;
        ThenNothing(Double(s));
        assert Bare(Rest(t)) == Then(y, Double(s));
      } else if c == TICK || c == DOLLAR {
        done, y := true, [];
        DollarFails(t[1..]);
      } else {
        y := [c];
        assert Bare(Rest(t)) == Then(y, Bare(s));
      }
    }
  }

  lemma BareCoded(c: Byte, s: seq<Byte>)
    requires Coded(c)
    ensures Bare(Code(InAnsi, c) + s) == Then(Tail(c), Bare(s))
  {
    var u := Code(InAnsi, c) + s;
    var tail := Tail(c);
    assert u[1] == tail[0] && u[2..] == tail[1..] + s;
    AlnumReads(Outside, tail[1..], s);
    ThenTwice([tail[0]], tail[1..], Bare(s));
    assert [tail[0]] + tail[1..] == tail;
  }

  /** A dollar sign is followed by a quote only at the end, where the quote stays open. */
  lemma DollarFails(t: seq<Byte>)
    ensures Rest(t) != [] && (Rest(t)[0] == SQ ==> Ansi(Rest(t)[1..]).Fail?)
  {
    if t != [] {
      RestFront(t);
    } else {
      assert Rest(t) == [SQ] && Rest(t)[1..] == [];
    }
  }

  /** What stands behind a raw backslash. */
  lemma TwoCharacters(t: seq<Byte>)
    requires |t| > 1 && t[0] == BS
    ensures Rest(t[1..]) == Code(InAnsi, t[1]) + Rest(t[2..])
    ensures Rest(t) == [BS] + Rest(t[1..])
  {
    hide Code, Rest;
    RestFront(t);
    BackslashIsRaw();
    RestFront(t[1..]);
    assert t[1..][1..] == t[2..];
  }

  /** At the end it is the closing quote. */
  lemma BackslashEnds(t: seq<Byte>)
    requires t == [BS]
    ensures Rest(t) == [BS, SQ]
  {
    hide Code, Rest;
    RestFront(t);
    BackslashIsRaw();
    assert t[1..] == [];
    RestOfNothing();
  }

  lemma NextBareEscape(t: seq<Byte>) returns (done: bool, x: seq<Byte>, y: seq<Byte>, g: State)
    requires t != [] && t[0] == BS && NoNuls(t)
    ensures done ==> Stops(Bare(Rest(t)), t)
    ensures !done ==>
              && Step(Outside, t, x, y, g) && Loses(Outside, x, y)
              && NotByBackslash(Outside, x, y, g)
  {
    hide Code, Rest, Bare, Single, Coded;
    done, x, y, g := |t| == 1, [], [], Outside;
    if done {
      BackslashEnds(t);
      BareTakes(Rest(t), SQ, []);
      EndReads();
    } else {
      var d, s := t[1], Rest(t[2..]);
      TwoCharacters(t);
      x := t[..2];
      if d == SQ {
        y, g := [BS], Singly;
        QuoteCode();
        BareTakes(Rest(t), BS, [SQ] + s);
        BareQuote(s);
      } else if Coded(d) {
        y := [BS] + Tail(d);
        BareTakes(Rest(t), BS, Tail(d) + s);
        AlnumReads(Outside, Tail(d), s);
        ThenTwice([BS], Tail(d), Bare(s));
      } else {
        y := [d];
        RawCode(d);
        BareTakes(Rest(t), d, s);
      }
      LosesByLength(x, y, d);
    }
  }

  /** The two characters of an escaped character, and what comes of them. */
  lemma LosesByLength(x: seq<Byte>, y: seq<Byte>, d: Byte)
    requires x == [BS, d] && (|y| <= 2 || (Coded(d) && y == [BS] + Tail(d)))
    ensures (|y| <= 2 || LosesOne(x, y)) && !Coded(BS)
  {
    if |y| > 2 {
      CodedIsGone(d);
      assert x[1] !in y;
    }
  }

  lemma BareTakes(u: seq<Byte>, c: Byte, s: seq<Byte>)
    requires u == [BS] + ([c] + s) && c != NEWLINE
    ensures Bare(u) == Then([c], Bare(s))
  {
    hide Single, Double, Ansi;
    assert u[2..] == s;
  }

  lemma BareQuote(s: seq<Byte>)
    ensures Bare([SQ] + s) == Single(s)
  {
    hide Single, Double, Ansi;
    assert ([SQ] + s)[1..] == s;
  }

  lemma RestIsSomething(t: seq<Byte>)
    ensures Rest(t) != []
  {
  }

  lemma RestOfNothing()
    ensures Rest([]) == [SQ]
  {
  }

  lemma NextDouble(t: seq<Byte>) returns (done: bool, x: seq<Byte>, y: seq<Byte>, g: State)
    requires t != [] && NoNuls(t)
    ensures done ==> Stops(Double(Rest(t)), t)
    ensures !done ==>
              && Step(Doubly, t, x, y, g) && Loses(Doubly, x, y)
              && NotByBackslash(Doubly, x, y, g)
  {
    hide Code, Rest, Double, Coded;
    var c, s := t[0], Rest(t[1..]);
    RestFront(t);
    done, x, g := false, t[..1], Doubly;
    if c == SQ {
      y := [BS, SQ];
      QuoteCode();
      DoubleKeeps(Rest(t), SQ, s);
      DoubleRaw(SQ, s);
      ThenTwice([BS], [SQ], Double(s));
    } else if Coded(c) {
      y := [BS] + Tail(c);
      var first, more := Tail(c)[0], Tail(c)[1..];
      assert Tail(c) + s == [first] + (more + s);
      DoubleKeeps(Rest(t), first, more + s);
      AlnumReads(Doubly, Tail(c), s);
      ThenTwice([BS], Tail(c), Double(s));
      CodedIsGone(c);
      assert x[0] !in y;
    } else {
      RawCode(c);
      if c == BS {
        done, x, y, g := NextDoubleEscape(t);
      } else {
        DoubleRaw(c, s);
        done := c == TICK || c == DOLLAR;
        y, g := if c == DQ || done then [] else [c], if c == DQ then Outside else Doubly;
      }
    }
  }

  lemma DoubleRaw(c: Byte, s: seq<Byte>)
    requires c != BS
    ensures Double([c] + s) == if c == TICK || c == DOLLAR then Fail
                               else if c == DQ then Then([], Bare(s))
                               else Then([c], Double(s))
  {
    hide Bare;
    assert ([c] + s)[1..] == s;
    ThenNothing(Bare(s));
  }

  lemma NextDoubleEscape(t: seq<Byte>) returns (done: bool, x: seq<Byte>, y: seq<Byte>, g: State)
    requires t != [] && t[0] == BS && NoNuls(t)
    ensures done ==> Stops(Double(Rest(t)), t)
    ensures !done ==>
              && Step(Doubly, t, x, y, g) && Loses(Doubly, x, y)
              && NotByBackslash(Doubly, x, y, g)
  {
    hide Code, Rest, Double, Coded;
    done, x, y, g := |t| == 1, [], [], Doubly;
    if done {
      BackslashEnds(t);
      DoubleIsOpen();
    } else {
      var d, s := t[1], Rest(t[2..]);
      TwoCharacters(t);
      x := t[..2];
      if d == SQ {
        y := [BS, SQ];
        QuoteCode();
        DoubleTakes(Rest(t), BS, [SQ] + s);
        DoubleRaw(SQ, s);
        ThenTwice([BS], [SQ], Double(s));
      } else if Coded(d) {
        y := [BS] + Tail(d);
        DoubleTakes(Rest(t), BS, Tail(d) + s);
        AlnumReads(Doubly, Tail(d), s);
        ThenTwice([BS], Tail(d), Double(s));
      } else {
        RawCode(d);
        if d == DQ || d == BS || d == TICK || d == DOLLAR {
          y := [d];
          DoubleTakes(Rest(t), d, s);
        } else {
          x, y := t[..1], [BS];
          DoubleKeeps(Rest(t), d, s);
        }
      }
      if |x| == 2 { LosesByLength(x, y, d); }
    }
  }

  lemma DoubleIsOpen()
    ensures Double([BS, SQ]).Fail?
  {
    var u := [BS, SQ];
    assert u[1..] == [SQ] && u[1..][1..] == [];
    assert Double(u[1..][1..]).Fail?;
  }

  lemma DoubleTakes(u: seq<Byte>, c: Byte, s: seq<Byte>)
    requires u == [BS] + ([c] + s) && (c == DQ || c == BS || c == TICK || c == DOLLAR)
    ensures Double(u) == Then([c], Double(s))
  {
    hide Bare;
    assert u[2..] == s;
  }

  lemma DoubleKeeps(u: seq<Byte>, c: Byte, s: seq<Byte>)
    requires u == [BS] + ([c] + s) && c != NEWLINE && c != DQ && c != BS && c != TICK && c != DOLLAR
    ensures Double(u) == Then([BS], Double([c] + s))
  {
    hide Bare;
    assert u[1..] == [c] + s;
  }

  lemma NextAnsi(t: seq<Byte>) returns (done: bool, x: seq<Byte>, y: seq<Byte>, g: State)
    requires t != [] && NoNuls(t)
    ensures done ==> Stops(Ansi(Rest(t)), t)
    ensures !done ==> Step(Dollar, t, x, y, g) && Loses(Dollar, x, y) && NotByBackslash(Dollar, x, y, g)
  {
    if t[0] == BS {
      done, x, y, g := NextAnsiEscape(t);
    } else {
      hide Code, Encode, AnsiText;
      done, x, y, g := false, t[..1], [t[0]], Dollar;
      RestFront(t);
      AnsiCodeReads(t[0], Rest(t[1..]));
    }
  }

  /** A raw backslash that is not kept makes the reading shorter, or loses a character for good. */
  ghost predicate Shorter(t: seq<Byte>, x: seq<Byte>, y: seq<Byte>, g: State) {
    t != [] && x != [] && !g.Doubly? && (KeptAt(t, 0) ==> |y| <= |x|) && (!KeptAt(t, 0) ==> |y| < |x| || LosesOne(x, y))
  }

  /** A raw backslash in the $'' form: what is read never makes up for it. */
  lemma NextAnsiEscape(t: seq<Byte>) returns (done: bool, x: seq<Byte>, y: seq<Byte>, g: State)
    requires t != [] && t[0] == BS && NoNuls(t)
    ensures done ==> Ansi(Rest(t)).Fail?
    ensures !done ==> Step(Dollar, t, x, y, g) && Shorter(t, x, y, g)
  {
    hide Code, Rest, Bare, Coded, Ansi, KeptAt;
    done, x, y, g := |t| == 1, [], [], Dollar;
    if done {
      BackslashEnds(t);
      AnsiTakes(Rest(t), SQ, []);
      EndReads();
    } else {
      var d, s := t[1], Rest(t[2..]);
      TwoCharacters(t);
      x := t[..2];
      if d == SQ {
        y, g := [BS], Outside;
        QuoteCode();
        AnsiTakes(Rest(t), BS, [SQ] + s);
        AnsiQuote(s);
      } else if Coded(d) {
        y := [BS] + Tail(d);
        AnsiTakes(Rest(t), BS, Tail(d) + s);
        AlnumReads(Dollar, Tail(d), s);
        ThenTwice([BS], Tail(d), Ansi(s));
        CodedIsGone(d);
        CodedIsNotKept(t);
        assert x[1] !in y;
      } else if d == LOWER_C && |t| > 2 {
        done, x, y, g := NextAnsiControl(t);
      } else {
        x, y, g := NextAnsiRaw(t);
      }
    }
  }

  lemma AnsiTakes(u: seq<Byte>, c: Byte, s: seq<Byte>)
    requires u == [BS] + ([c] + s) && (c == BS || c == SQ)
    ensures Ansi(u) == Then([c], Ansi(s))
  {
    hide Bare, ReadEscape;
    assert u[1..] == [c] + s && u[2..] == s;
    LetterEscape(u[1..]);
  }

  lemma AnsiQuote(s: seq<Byte>)
    ensures Ansi([SQ] + s) == Bare(s)
  {
    hide Bare, ReadEscape;
    assert ([SQ] + s)[1..] == s;
  }

  lemma CodedIsNotKept(t: seq<Byte>)
    requires |t| > 1 && Coded(t[1])
    ensures !KeptAt(t, 0)
  {
    hide Coded;
  }

  lemma CodedIsGone(c: Byte)
    requires Coded(c)
    ensures c !in [BS] + Tail(c) && BS !in Tail(c)
  {
  }

  lemma LetterEscape(s: seq<Byte>)
    requires s != [] && Letter(s[0]) != 0
    ensures ReadEscape(s) == Found([Letter(s[0])], 1)
  {
  }

  /** In front of a character that stands for itself, and does not name a control character. */
  lemma NextAnsiRaw(t: seq<Byte>) returns (x: seq<Byte>, y: seq<Byte>, g: State)
    requires |t| > 1 && t[0] == BS && t[1] != SQ && !Coded(t[1]) && (t[1] == LOWER_C ==> |t| == 2)
    ensures Step(Dollar, t, x, y, g) && Shorter(t, x, y, g)
  {
    hide Code, ReadEscape, Rest, Coded, KeptAt, Ansi, Cut, LosesOne;
    TwoCharacters(t);
    var r := Rest(t[1..]);
    AnsiEscapes(Rest(t), r);
    match ReadEscape(r) {
      case Unlisted =>
        x, y, g := t[..1], [BS], Dollar;
        UnlistedIsKept(t);
      case Nul(n) =>
        EscapedDigits(t[1..], n);
        x, y, g := t[..1 + n], [], Dead;
        assert t[1..][n..] == t[1 + n..];
        ThenNothing(Cut(r[n..]));
      case Found(bytes, n) =>
        EscapedDigits(t[1..], n);
        x, y, g := t[..1 + n], bytes, Dollar;
        NoMoreThanRead(r);
        assert t[1..][n..] == t[1 + n..];
    }
  }

  lemma AnsiEscapes(u: seq<Byte>, r: seq<Byte>)
    requires u == [BS] + r
    ensures ReadEscape(r).Unlisted? ==> Ansi(u) == Then([BS], Ansi(r))
    ensures ReadEscape(r).Nul? ==> Ansi(u) == Cut(r[ReadEscape(r).len..])
    ensures ReadEscape(r).Found? ==> Ansi(u) == Then(ReadEscape(r).bytes, Ansi(r[ReadEscape(r).len..]))
  {
    hide Bare, Cut, ReadEscape;
    assert u[1..] == r;
    if !ReadEscape(r).Unlisted? { assert u[1 + ReadEscape(r).len..] == r[ReadEscape(r).len..]; }
  }

  lemma UnlistedIsKept(t: seq<Byte>)
    requires |t| > 1 && t[1] != SQ && !Coded(t[1]) && (t[1] == LOWER_C ==> |t| == 2)
    requires ReadEscape(Rest(t[1..])).Unlisted?
    ensures KeptAt(t, 0)
  {
    hide Code, Encode, AnsiText, Coded, Control, Letter;
    SecondCharacter(t[1..], []);
    if |t| > 2 && IsHex(t[2]) { HexStands(t[2]); }
  }

  lemma HexStands(c: Byte)
    requires IsHex(c)
    ensures Code(InAnsi, c) == [c]
  {
  }

  /** An escape sequence gives no more bytes than it has characters behind the backslash. */
  lemma NoMoreThanRead(s: seq<Byte>)
    requires ReadEscape(s).Found? && s[0] != LOWER_C
    ensures |ReadEscape(s).bytes| <= ReadEscape(s).len
  {
    hide Utf8, Letter, OctalValue;
    if HexDigits(s[0]) > 2 && |s| > 1 && IsHex(s[1]) {
      var max := 1 + HexDigits(s[0]);
      HexIsSmall(s, 1, max, 0);
      Utf8IsShort(HexNumber(s, 1, max, 0));
    }
  }

  function Sixteens(n: nat): (p: nat)
    ensures p > 0
  {
    if n == 0 then 1 else 16 * Sixteens(n - 1)
  }

  lemma {:induction false} HexIsSmall(s: seq<Byte>, n: nat, max: nat, v: nat)
    requires 0 < n <= |s| && v < Sixteens(n - 1)
    ensures HexNumber(s, n, max, v).0 < Sixteens(HexNumber(s, n, max, v).1 - 1)
    decreases |s| - n
  {
    if n < max && n < |s| && IsHex(s[n]) { HexIsSmall(s, n + 1, max, v * 16 + HexValue(s[n])); }
  }

  lemma Utf8IsShort(vn: (nat, nat))
    requires vn.1 > 0 && vn.0 < Sixteens(vn.1 - 1)
    ensures |Utf8(vn.0)| <= vn.1
  {
    var n := vn.1;
    assert Sixteens(0) == 1 && Sixteens(1) == 16 && Sixteens(2) == 256 && Sixteens(3) == 4096 && Sixteens(4) == 0x10000;
  }

  /** The characters of an escape sequence that follows a raw backslash stand for themselves. */
  lemma EscapedDigits(u: seq<Byte>, n: nat)
    requires u != [] && u[0] != SQ && !Coded(u[0]) && (u[0] == LOWER_C ==> |u| == 1)
    requires !ReadEscape(Rest(u)).Unlisted? && n == ReadEscape(Rest(u)).len
    ensures u[0] != LOWER_C && Rest(u) != [] && Rest(u)[0] == u[0]
    ensures 0 < n <= |u| && Rest(u)[n..] == Rest(u[n..])
  {
    hide Code, Encode, Coded, AnsiText, ReadEscape, Rest;
    RestFront(u);
    RawCode(u[0]);
    assert Rest(u)[1..] == Rest(u[1..]) && Rest(u)[0] == u[0];
    if u[0] == LOWER_C {
      RestOfNothing();
      BareControl(Rest(u));
    } else {
      LaterDigits(Rest(u), n);
      RawDigits(u[1..], n - 1);
      assert Rest(u)[n..] == Rest(u)[1..][n - 1..] && u[n..] == u[1..][n - 1..];
    }
  }

  lemma BareControl(s: seq<Byte>)
    requires s == [LOWER_C, SQ]
    ensures ReadEscape(s).Unlisted?
  {
  }

  lemma LaterDigits(s: seq<Byte>, n: nat)
    requires !ReadEscape(s).Unlisted? && n == ReadEscape(s).len && s[0] != LOWER_C
    ensures AllAlnum(s[1..][..n - 1])
  {
    hide Utf8, Letter;
    if IsOctal(s[0]) {
      OctalDigits(s, 1, s[0] - 48);
    } else if HexDigits(s[0]) > 0 && |s| > 1 && IsHex(s[1]) {
      AreHexDigits(s, 1, 1 + HexDigits(s[0]), 0);
    }
  }

  lemma {:induction false} OctalDigits(s: seq<Byte>, n: nat, v: nat)
    requires 0 < n <= |s| && n <= 3
    ensures n <= OctalValue(s, n, v).1 && forall i | n <= i < OctalValue(s, n, v).1 :: IsOctal(s[i])
    decreases 3 - n
  {
    if n < 3 && n < |s| && IsOctal(s[n]) { OctalDigits(s, n + 1, v * 8 + s[n] - 48); }
  }

  lemma {:induction false} AreHexDigits(s: seq<Byte>, n: nat, max: nat, v: nat)
    requires 0 < n <= |s|
    ensures n <= HexNumber(s, n, max, v).1 && forall i | n <= i < HexNumber(s, n, max, v).1 :: IsHex(s[i])
    decreases |s| - n
  {
    if n < max && n < |s| && IsHex(s[n]) { AreHexDigits(s, n + 1, max, v * 16 + HexValue(s[n])); }
  }

  lemma {:induction false} RawDigits(u: seq<Byte>, n: nat)
    requires n <= |Rest(u)| && AllAlnum(Rest(u)[..n])
    ensures n <= |u| && Rest(u)[n..] == Rest(u[n..])
  {
    hide Rest, Code;
    if n == 0 {
      assert u[0..] == u && Rest(u)[0..] == Rest(u);
    } else {
      assert Alnum(Rest(u)[..n][0]) && Rest(u)[..n][0] == Rest(u)[0];
      if u == [] {
        RestOfNothing();
      } else {
        RestFront(u);
        FirstOfCode(u[0]);
        assert Rest(u)[1..] == Rest(u[1..]);
        var w := Rest(u[1..])[..n - 1];
        forall i | 0 <= i < |w| ensures Alnum(w[i]) { assert Rest(u)[..n][i + 1] == w[i]; }
        RawDigits(u[1..], n - 1);
        assert Rest(u)[n..] == Rest(u)[1..][n - 1..] && u[n..] == u[1..][n - 1..];
      }
    }
  }

  /** A code that begins with a letter or digit is the character itself. */
  lemma FirstOfCode(c: Byte)
    ensures Code(InAnsi, c) != []
    ensures Alnum(Code(InAnsi, c)[0]) ==> Code(InAnsi, c) == [c]
  {
  }

  /** In front of c and more: the name of a control character, which may itself be in code. */
  lemma NextAnsiControl(t: seq<Byte>) returns (done: bool, x: seq<Byte>, y: seq<Byte>, g: State)
    requires |t| > 2 && t[0] == BS && t[1] == LOWER_C
    ensures done ==> Ansi(Rest(t)).Fail?
    ensures !done ==> Step(Dollar, t, x, y, g) && Shorter(t, x, y, g)
  {
    hide Code, Bare, Rest, Coded, Control, Ansi, Cut, KeptAt, ControlOf;
    var e, s := t[2], Rest(t[3..]);
    ThirdCharacter(t);
    ControlIsNotKept(t);
    done, x, y, g := false, t[..3], [], Dollar;
    var r := Code(InAnsi, e) + s;
    if e == SQ {
      y := [28, SQ];
      QuoteCode();
      assert r == [BS] + ([SQ] + s);
      ControlReads(Rest(t), [SQ] + s);
      assert ([SQ] + s)[1..] == s;
    } else if Coded(e) {
      y := [28] + Tail(e);
      var first, more := Tail(e)[0], Tail(e)[1..];
      CodedIsGone(e);
      assert r == [BS] + (Tail(e) + s) && Tail(e) == [first] + more;
      ControlReads(Rest(t), Tail(e) + s);
      assert (Tail(e) + s)[1..] == more + s;
      AlnumReads(Dollar, more, s);
      ThenTwice([28, first], more, Ansi(s));
      assert [28, first] + more == y;
      assert x[0] !in y;
    } else {
      RawCode(e);
      if e == BS {
        done, x, y, g := NextAnsiBackslash(t);
      } else {
        NamedControl(Rest(t), e, s);
        if ControlOf(e) == 0 {
          g := Dead;
          ThenNothing(Cut(s));
        } else {
          y := [ControlOf(e)];
        }
      }
    }
  }

  lemma ControlIsNotKept(t: seq<Byte>)
    requires |t| > 2 && t[1] == LOWER_C
    ensures !KeptAt(t, 0)
  {
    hide Coded;
  }

  lemma ThirdCharacter(t: seq<Byte>)
    requires |t| > 2 && t[0] == BS && t[1] == LOWER_C
    ensures Rest(t) == [BS, LOWER_C] + (Code(InAnsi, t[2]) + Rest(t[3..]))
  {
    hide Code, Rest;
    RestFront(t);
    BackslashIsRaw();
    RestFront(t[1..]);
    RawCode(LOWER_C);
    RestFront(t[2..]);
    assert t[1..][1..] == t[2..] && t[2..][1..] == t[3..];
  }

  lemma NamedControl(u: seq<Byte>, e: Byte, s: seq<Byte>)
    requires u == [BS, LOWER_C] + ([e] + s) && e != BS && e != SQ
    ensures Ansi(u) == if ControlOf(e) == 0 then Cut(s) else Then([ControlOf(e)], Ansi(s))
  {
    hide Bare, Cut, ReadEscape;
    var r := u[1..];
    assert r == [LOWER_C, e] + s && u[3..] == s;
    ControlEscape(r);
  }

  lemma ControlEscape(s: seq<Byte>)
    requires |s| > 1 && s[0] == LOWER_C && s[1] != BS && s[1] != SQ
    ensures ReadEscape(s) == if ControlOf(s[1]) == 0 then Nul(2) else Found([ControlOf(s[1])], 2)
  {
  }

  /** The name is a backslash: together with a second one, or else with what the other stands before. */
  lemma ControlReads(u: seq<Byte>, s: seq<Byte>)
    requires u == [BS, LOWER_C] + ([BS] + s) && s != []
    ensures Ansi(u) == Then(if s[0] == BS then [28] else [28, s[0]], Ansi(s[1..]))
  {
    hide Bare, Cut;
    assert u[1..] == [LOWER_C, BS] + s && u[4..] == s[1..];
    assert ReadEscape(u[1..]) == Control(u[1..]);
  }

  lemma NextAnsiBackslash(t: seq<Byte>) returns (done: bool, x: seq<Byte>, y: seq<Byte>, g: State)
    requires |t| > 2 && t[0] == BS && t[1] == LOWER_C && t[2] == BS
    ensures done ==> Ansi(Rest(t)).Fail?
    ensures !done ==> Step(Dollar, t, x, y, g) && Shorter(t, x, y, g)
  {
    hide Code, Bare, Rest, Coded, Control, Cut, KeptAt;
    var u := Rest(t[3..]);
    ThirdCharacter(t);
    ControlIsNotKept(t);
    BackslashIsRaw();
    RestIsSomething(t[3..]);
    done, x, y, g := false, [], [], Dollar;
    if |t| == 3 {
      done := true;
      RestOfNothing();
      ControlReads(Rest(t), u);
    } else {
      var e, s := t[3], Rest(t[4..]);
      RestFront(t[3..]);
      assert t[3..][1..] == t[4..];
      ControlReads(Rest(t), u);
      x := t[..4];
      if e == SQ {
        y, g := [28], Outside;
        QuoteCode();
        assert u[1..] == [SQ] + s && u[1..][1..] == s;
        ThenTwice([28], [], Bare(s));
      } else if Coded(e) {
        y := [28] + Tail(e);
        CodedIsGone(e);
        assert u[1..] == Tail(e) + s;
        AlnumReads(Dollar, Tail(e), s);
        ThenTwice([28], Tail(e), Ansi(s));
        assert x[0] !in y;
      } else {
        RawCode(e);
        assert u[1..] == s;
        y := if e == BS then [28] else [28, e];
      }
    }
  }

  /** Behind a NUL nothing is read. */
  lemma NextCut(t: seq<Byte>) returns (done: bool, x: seq<Byte>, g: State)
    requires t != []
    ensures done ==> Cut(Rest(t)).Fail?
    ensures !done ==> Step(Dead, t, x, [], g) && x != [] && !g.Doubly?
  {
    hide Code, Encode, Coded, Rest;
    var c, s := t[0], Rest(t[1..]);
    RestFront(t);
    done, x, g := false, t[..1], Dead;
    if c == SQ {
      QuoteCode();
      assert Rest(t)[2..] == s;
      ThenNothing(Cut(s));
    } else if Coded(c) {
      CutCoded(c, s);
      ThenNothing(Cut(s));
    } else {
      RawCode(c);
      assert Rest(t)[1..] == s && Rest(t)[0] == c;
      if c == BS {
        done, x, g := NextCutEscape(t);
      } else {
        ThenNothing(Cut(s));
      }
    }
  }

  lemma CutCoded(c: Byte, s: seq<Byte>)
    requires Coded(c)
    ensures Cut(Code(InAnsi, c) + s) == Cut(s)
  {
    hide Code;
    var u := Code(InAnsi, c) + s;
    var tail := Tail(c);
    assert u[2..] == tail[1..] + s;
    AlnumReads(Dead, tail[1..], s);
  }

  lemma NextCutEscape(t: seq<Byte>) returns (done: bool, x: seq<Byte>, g: State)
    requires t != [] && t[0] == BS
    ensures done ==> Cut(Rest(t)).Fail?
    ensures !done ==> Step(Dead, t, x, [], g) && x != [] && !g.Doubly?
  {
    hide Code, Encode, Coded, Rest, Bare;
    RestFront(t);
    BackslashIsRaw();
    var r := Rest(t[1..]);
    assert Rest(t)[1..] == r;
    RestIsSomething(t[1..]);
    done, x, g := false, [], Dead;
    if |t| == 1 {
      done := true;
      RestOfNothing();
      assert Rest(t)[2..] == [];
    } else {
      var d, s := t[1], Rest(t[2..]);
      assert t[1..][1..] == t[2..] && t[1..][0] == d;
      RestFront(t[1..]);
      x := t[..2];
      assert Rest(t)[2..] == r[1..];
      assert Cut(Rest(t)) == Cut(r[1..]);
      if d == SQ {
        g := Outside;
        QuoteCode();
        assert r[1..] == [SQ] + s && r[1..][1..] == s;
        ThenNothing(Bare(s));
      } else if Coded(d) {
        assert r[1..] == Tail(d) + s;
        AlnumReads(Dead, Tail(d), s);
        ThenNothing(Cut(s));
      } else {
        RawCode(d);
        assert r[1..] == s;
        ThenNothing(Cut(s));
      }
    }
  }

  // ---------------------------------------------------------------- the reading is never longer

  lemma Next(f: State, t: seq<Byte>) returns (done: bool, x: seq<Byte>, y: seq<Byte>, g: State)
    requires t != [] && NoNuls(t)
    ensures done ==> Stops(From(f, Rest(t)), t)
    ensures !done ==> Step(f, t, x, y, g) && Loses(f, x, y) && NotByBackslash(f, x, y, g)
  {
    hide Step, LosesOne, Bare, Single, Double, Ansi, Cut;
    done := false;
    match f {
      case Outside => done, x, y, g := NextBare(t);
      case Singly => x, y, g := NextSingle(t);
      case Doubly => done, x, y, g := NextDouble(t);
      case Dollar => done, x, y, g := NextAnsi(t);
      case Dead => y := []; done, x, g := NextCut(t);
    }
  }

  /**
   * In no state is the rest of the input read as more than itself: as itself behind some other text
   * (but for a lone backslash in double quotes, which no reading leads to).
   */
  lemma {:induction false} NeverLonger(f: State, v: seq<Byte>, t: seq<Byte>)
    requires v != [] && NoNuls(t) && (f.Doubly? ==> v != [BS])
    ensures !Longer(f, v, t)
    decreases |t|
  {
    hide From, Rest, Code, Encode;
    if t == [] {
      AtTheEnd(f, v);
    } else {
      var done, x, y, g := Next(f, t);
      if Longer(f, v, t) && !done {
        StepsOn(f, v, t, x, y, g);
        GoesOn(f, v, x, y, g);
        forall i | 0 <= i < |t[|x|..]| ensures t[|x|..][i] != 0 { assert t[|x|..][i] == t[|x| + i]; }
        if |y| < |v| + |x| {
          NeverLonger(g, (v + x)[|y|..], t[|x|..]);
        }
      }
    }
  }

  lemma AtTheEnd(f: State, v: seq<Byte>)
    requires v != []
    ensures !Longer(f, v, [])
  {
    RestOfNothing();
    assert [SQ][1..] == [] && |v + []| > 0;
    match f {
      case Outside => assert Bare([SQ]).Fail?;
      case Doubly => assert Double([SQ]).Fail?;
      case Dollar => assert Ansi([SQ]) == Bare([]);
      case Singly => assert Single([SQ]) == Bare([]);
      case Dead => assert Cut([SQ]) == Bare([]);
    }
  }

  /** What the reading is ahead after a step, and that the step does not end it. */
  lemma GoesOn(f: State, v: seq<Byte>, x: seq<Byte>, y: seq<Byte>, g: State)
    requires v != [] && (f.Doubly? ==> v != [BS]) && Loses(f, x, y) && NotByBackslash(f, x, y, g)
    requires forall i | 0 <= i < |y| && i < |v| + |x| :: y[i] == (v + x)[i]
    ensures |y| < |v| + |x|
    ensures g.Doubly? ==> (v + x)[|y|..] != [BS]
  {
    var n := |v| + |x|;
    if LosesOne(x, y) && |y| >= n { NothingIsLost(v, x, y); }
    assert (v + x)[n - 1] == x[|x| - 1] && (v + x)[0] == v[0];
    if |y| < n && (v + x)[|y|..] == [BS] {
      assert |y| == n - 1 && (v + x)[|y|..][0] == (v + x)[|y|];
    }
  }

  lemma NothingIsLost(v: seq<Byte>, x: seq<Byte>, y: seq<Byte>)
    requires |y| >= |v| + |x| && forall i | 0 <= i < |v| + |x| :: y[i] == (v + x)[i]
    ensures !LosesOne(x, y)
  {
    forall i | 0 <= i < |x| ensures x[i] in y { assert (v + x)[|v| + i] == x[i]; }
  }

  // ---------------------------------------------------------------- the theorem

  /** A string that begins with a backslash that is not kept is not read back in the $'' form. */
  lemma BackslashIsLost(u: seq<Byte>)
    requires u != [] && u[0] == BS && NoNuls(u) && !KeptAt(u, 0)
    ensures Ansi(Rest(u)) != Word(u, [])
  {
    hide Rest, Code, Encode, Ansi, Bare, KeptAt, LosesOne;
    var done, x, y, g := NextAnsiEscape(u);
    if !done && Ansi(Rest(u)) == Word(u, []) {
      assert [] + u == u;
      StepsOn(Dollar, [], u, x, y, g);
      assert [] + x == x;
      if |y| < |x| {
        forall i | 0 <= i < |u[|x|..]| ensures u[|x|..][i] != 0 { assert u[|x|..][i] == u[|x| + i]; }
        NeverLonger(g, x[|y|..], u[|x|..]);
      } else {
        NothingIsLost([], x, y);
      }
    }
  }

  /** In the $'' form a string is read back exactly when all its backslashes are kept. */
  lemma {:induction false} AnsiReadsIff(a: seq<Byte>)
    requires NoNuls(a)
    ensures Ansi(Rest(a)) == Word(a, []) <==> AllKept(a)
  {
    hide Code, Encode, AnsiText, Ansi, Bare, AllKept, KeptAt;
    if a == [] {
      NothingReads([]);
      EndReads();
      assert AllKept(a) by { NothingIsKept(a); }
    } else {
      var rest := a[1..];
      forall i | 0 <= i < |rest| ensures rest[i] != 0 { assert rest[i] == a[i + 1]; }
      assert [a[0]] + rest == a;
      AllKeptFront(a);
      AnsiReadsIff(rest);
      ThenIs([a[0]], Ansi(Rest(rest)), rest);
      if a[0] == BS {
        if KeptAt(a, 0) {
          KeptReads(a, []);
        } else {
          BackslashIsLost(a);
        }
      } else {
        RestFront(a);
        AnsiCodeReads(a[0], Rest(rest));
      }
    }
  }

  lemma NothingIsKept(a: seq<Byte>)
    requires a == []
    ensures AllKept(a)
  {
  }

  lemma ThenIs(p: seq<Byte>, r: Read, u: seq<Byte>)
    ensures Then(p, r) == Word(p + u, []) <==> r == Word(u, [])
  {
    if r.Word? && p + r.text == p + u {
      assert r.text == (p + r.text)[|p|..] == (p + u)[|p|..] == u;
    }
  }

  lemma EndReads()
    ensures Bare([]) == Word([], []) && Ansi([]).Fail?
  {
  }

  /**
   * A string without NUL is read back from its escaped form exactly when the form is not $'', or none
   * of its backslashes begins an escape sequence there.
   */
  lemma RoundTripIff(a: seq<Byte>)
    requires NoNuls(a)
    ensures Unquote(Escaped(a)) == Some(a) <==> !(a != [] && FormOf(a).InAnsi? && !AllKept(a))
  {
    hide Code, Encode, Ansi, Bare, Single, Double, FormOf, AllKept, AnsiText;
    EndReads();
    assert Escaped(a) + [] == Escaped(a) && a + [] == a;
    if a != [] && FormOf(a).InAnsi? {
      AnsiOpens(a, []);
      AnsiReadsIff(a);
    } else {
      if a == [] { NothingIsKept(a); }
      EscapedReads(a, []);
    }
  }

  /**
   * A short string that is not read back: a control character brings the $'' form, and the
   * backslash takes the letter behind it; and one whose backslash stays, for \z means nothing.
   */
  lemma BackslashExample()
    ensures Unquote(Escaped([1, BS, 110])) != Some([1, BS, 110])
    ensures Unquote(Escaped([1, BS, 122])) == Some([1, BS, 122])
  {
    var lost: seq<Byte>, kept: seq<Byte> := [1, BS, 110], [1, BS, 122];
    assert NeedsAnsi(lost[0]) && lost[1] == BS && !KeptAt(lost, 1);
    assert NeedsAnsi(kept[0]) && KeptAt(kept, 1) && AllKept(kept);
    RoundTripIff(lost);
    RoundTripIff(kept);
  }
}
