/** bash_escape_string of StringUtils.cpp, and ConvertRawCmdline of ExecveConverter.cpp. */
module BashEscape {
  import opened Bytes
  import opened Names
  import opened Shell
  import opened Wrappers

  // ---------------------------------------------------------------- the tables

  predicate NeedsAnsi(c: Byte) {
    1 <= c < 32 || 127 <= c
  }

  predicate NeedsQuote(c: Byte) {
    c == SPACE || c == 38 || c == 40 || c == 41 || c == 59 || c == 60 || c == 62 || c == 124
  }

  /** The exclamation mark. */
  predicate NeedsSingle(c: Byte) {
    c == 33
  }

  predicate NeedsEscape(c: Byte) {
    c == DQ || c == DOLLAR || c == BS || c == TICK
  }

  predicate IsQuote(c: Byte) {
    c == SQ
  }

  function HexDigit(n: nat): (c: Byte)
    requires n < 16
    ensures IsHex(c) && HexValue(c) == n && Letter(c) != BS
  {
    if n < 10 then 48 + n else 55 + n
  }

  /** The letter of bash_escape_codes, or 0. */
  function AnsiLetter(c: Byte): Byte {
    if c == 7 then 97 else if c == 8 then 98 else if c == 9 then 116 else if c == 10 then 110 else if c == 11 then 118
    else if c == 12 then 102 else if c == 13 then 114 else if c == 27 then 101 else if c == SQ then SQ
    else 0
  }

  datatype Form = Plain | BareEscaped | InDouble | InSingle | InAnsi

  /** One character in a form: as it is, behind a backslash, or in hexadecimal. */
  function Code(f: Form, c: Byte): seq<Byte> {
    match f
    case Plain => [c]
    case InSingle => [c]
    case BareEscaped => if NeedsEscape(c) || c == SQ then [BS, c] else [c]
    case InDouble => if NeedsEscape(c) then [BS, c] else [c]
    case InAnsi =>
      if AnsiLetter(c) != 0 then [BS, AnsiLetter(c)]
      else if NeedsAnsi(c) then [BS, 120, HexDigit(c / 16), HexDigit(c % 16)]
      else [c]
  }

  function Encode(f: Form, a: seq<Byte>): seq<Byte> {
    if a == [] then [] else Code(f, a[0]) + Encode(f, a[1..])
  }

  predicate Any(p: Byte -> bool, a: seq<Byte>) {
    exists i :: 0 <= i < |a| && p(a[i])
  }

  /** The form a string is given, by the characters in it. */
  function FormOf(a: seq<Byte>): Form {
    if Any(NeedsAnsi, a) || (Any(NeedsSingle, a) && Any(IsQuote, a)) then InAnsi
    else if Any(NeedsSingle, a) then InSingle
    else if Any(NeedsQuote, a) then InDouble
    else if Any(NeedsEscape, a) || Any(IsQuote, a) then BareEscaped
    else Plain
  }

  function Open(f: Form): seq<Byte> {
    match f case InAnsi => [DOLLAR, SQ] case InSingle => [SQ] case InDouble => [DQ] case _ => []
  }

  function Close(f: Form): seq<Byte> {
    match f case InAnsi => [SQ] case InSingle => [SQ] case InDouble => [DQ] case _ => []
  }

  function Escaped(a: seq<Byte>): seq<Byte> {
    if a == [] then [SQ, SQ] else Open(FormOf(a)) + Encode(FormOf(a), a) + Close(FormOf(a))
  }

  // ---------------------------------------------------------------- reading it back

  /** Does this form carry the character safely? */
  predicate Carries(f: Form, c: Byte) {
    c != 0 &&
    match f
    case Plain => !NeedsAnsi(c) && !NeedsQuote(c) && !NeedsSingle(c) && !NeedsEscape(c) && c != SQ
    case BareEscaped => !NeedsAnsi(c) && !NeedsQuote(c) && !NeedsSingle(c)
    case InDouble => !NeedsAnsi(c) && !NeedsSingle(c)
    case InSingle => !NeedsAnsi(c) && c != SQ
    case InAnsi => c != BS
  }

  function In(f: Form, s: seq<Byte>): Read {
    match f case InAnsi => Ansi(s) case InSingle => Single(s) case InDouble => Double(s) case _ => Bare(s)
  }

  lemma ThenTwice(a: seq<Byte>, b: seq<Byte>, r: Read)
    ensures Then(a, Then(b, r)) == Then(a + b, r)
  {
    match r { case Fail => case Word(t, rest) => assert a + (b + t) == (a + b) + t; }
  }

  lemma ThenNothing(r: Read)
    ensures Then([], r) == r
  {
    match r { case Fail => case Word(t, rest) => assert [] + t == t; }
  }

  /** One encoded character is read as the character. */
  lemma CodeReads(f: Form, c: Byte, s: seq<Byte>)
    requires Carries(f, c)
    ensures In(f, Code(f, c) + s) == Then([c], In(f, s))
  {
    hide Code, Carries;
    match f {
      case InAnsi => AnsiCodeReads(c, s);
      case InDouble => DoubleCodeReads(c, s);
      case InSingle => SingleCodeReads(c, s);
      case BareEscaped => BareCodeReads(c, s);
      case Plain => PlainCodeReads(c, s);
    }
  }

  lemma AnsiCodeReads(c: Byte, s: seq<Byte>)
    requires Carries(InAnsi, c)
    ensures Ansi(Code(InAnsi, c) + s) == Then([c], Ansi(s))
  {
    hide Ansi, AnsiLetter;
    if AnsiLetter(c) != 0 {
      LetterStandsFor(c);
      LetterReads(AnsiLetter(c), s);
    } else if NeedsAnsi(c) {
      HexReads(c, s);
    } else {
      LetterStandsFor(c);
      RawReads(c, s);
    }
  }

  lemma LetterStandsFor(c: Byte)
    ensures AnsiLetter(c) != 0 ==> Letter(AnsiLetter(c)) == c != 0
    ensures AnsiLetter(c) == 0 ==> c != SQ
  {
  }

  lemma RawReads(c: Byte, s: seq<Byte>)
    requires c != SQ && c != BS
    ensures Ansi([c] + s) == Then([c], Ansi(s))
  {
    hide Bare, ReadEscape;
    assert ([c] + s)[1..] == s;
  }

  lemma LetterReads(l: Byte, s: seq<Byte>)
    requires Letter(l) != 0
    ensures Ansi([BS, l] + s) == Then([Letter(l)], Ansi(s))
  {
    hide Letter, Bare;
    var t := [BS, l] + s;
    assert t[1..] == [l] + s && t[1..][0] == l;
    assert ReadEscape(t[1..]) == Found([Letter(l)], 1);
    assert t[2..] == s;
  }

  lemma HexReads(c: Byte, s: seq<Byte>)
    requires 0 < c
    ensures Ansi([BS, 120, HexDigit(c / 16), HexDigit(c % 16)] + s) == Then([c], Ansi(s))
  {
    hide Bare;
    var t := [BS, 120, HexDigit(c / 16), HexDigit(c % 16)] + s;
    var u := t[1..];
    assert u == [120, HexDigit(c / 16), HexDigit(c % 16)] + s;
    TwoHexDigits(u, c);
    assert t[4..] == s;
  }

  lemma TwoHexDigits(u: seq<Byte>, c: Byte)
    requires 0 < c && |u| >= 3 && u[0] == 120 && u[1] == HexDigit(c / 16) && u[2] == HexDigit(c % 16)
    ensures ReadEscape(u) == Found([c], 3)
  {
    hide HexDigit;
    assert HexNumber(u, 3, 3, c / 16 * 16 + c % 16) == (c, 3);
    assert HexNumber(u, 2, 3, c / 16) == (c, 3);
    assert HexNumber(u, 1, 3, 0) == (c, 3);
  }

  lemma DoubleCodeReads(c: Byte, s: seq<Byte>)
    requires Carries(InDouble, c)
    ensures Double(Code(InDouble, c) + s) == Then([c], Double(s))
  {
    hide Bare;
    var t := Code(InDouble, c) + s;
    assert t[|Code(InDouble, c)|..] == s;
  }

  lemma SingleCodeReads(c: Byte, s: seq<Byte>)
    requires Carries(InSingle, c)
    ensures Single(Code(InSingle, c) + s) == Then([c], Single(s))
  {
    hide Bare;
    var t := Code(InSingle, c) + s;
    assert t[1..] == s;
  }

  lemma BareCodeReads(c: Byte, s: seq<Byte>)
    requires Carries(BareEscaped, c)
    ensures Bare(Code(BareEscaped, c) + s) == Then([c], Bare(s))
  {
    hide Single, Double, Ansi;
    var t := Code(BareEscaped, c) + s;
    assert t[|Code(BareEscaped, c)|..] == s;
  }

  lemma PlainCodeReads(c: Byte, s: seq<Byte>)
    requires Carries(Plain, c)
    ensures Bare(Code(Plain, c) + s) == Then([c], Bare(s))
  {
    hide Single, Double, Ansi;
    var t := Code(Plain, c) + s;
    assert t[1..] == s;
  }

  lemma {:induction false} EncodeReads(f: Form, a: seq<Byte>, s: seq<Byte>)
    requires forall i | 0 <= i < |a| :: Carries(f, a[i])
    ensures In(f, Encode(f, a) + s) == Then(a, In(f, s))
  {
    hide Code, Carries, In;
    if a == [] {
      assert Encode(f, a) + s == s;
      ThenNothing(In(f, s));
    } else {
      EncodeReads(f, a[1..], s);
      assert Encode(f, a) + s == Code(f, a[0]) + (Encode(f, a[1..]) + s);
      CodeReads(f, a[0], Encode(f, a[1..]) + s);
      ThenTwice([a[0]], a[1..], In(f, s));
      assert [a[0]] + a[1..] == a;
    }
  }

  /** The chosen form carries every character of the string, but a backslash in the $'' form. */
  lemma FormCarries(a: seq<Byte>, i: nat)
    requires i < |a| && a[i] != 0 && !FormOf(a).InAnsi?
    ensures Carries(FormOf(a), a[i])
  {
  }

  // ---------------------------------------------------------------- backslashes in the $'' form

  /** Characters written as a backslash and letters or digits. */
  predicate Coded(c: Byte) {
    c != SQ && (AnsiLetter(c) != 0 || NeedsAnsi(c))
  }

  /**
   * A backslash, which the $'' form does not escape, in front of a character that does not make it
   * the beginning of a listed escape sequence.
   */
  predicate KeptAt(a: seq<Byte>, k: nat)
    requires k < |a|
  {
    && k + 1 < |a| && a[k + 1] != SQ && !Coded(a[k + 1]) && Letter(a[k + 1]) == 0 && !IsOctal(a[k + 1])
    && (a[k + 1] == LOWER_C ==> k + 2 == |a|)
    && (HexDigits(a[k + 1]) > 0 && k + 2 < |a| ==> !IsHex(a[k + 2]))
  }

  /** Every backslash is one of these. */
  predicate AllKept(a: seq<Byte>) {
    forall k | 0 <= k < |a| && a[k] == BS :: KeptAt(a, k)
  }

  lemma AllKeptFront(a: seq<Byte>)
    requires a != []
    ensures AllKept(a) <==> (a[0] == BS ==> KeptAt(a, 0)) && AllKept(a[1..])
  {
    if AllKept(a) {
      forall k | 0 <= k < |a[1..]| && a[1..][k] == BS ensures KeptAt(a[1..], k) { assert KeptAt(a, k + 1); }
    }
    if (a[0] == BS ==> KeptAt(a, 0)) && AllKept(a[1..]) {
      forall k | 0 <= k < |a| && a[k] == BS ensures KeptAt(a, k) {
        if k > 0 { assert KeptAt(a[1..], k - 1); }
      }
    }
  }

  /** A string in the $'' form, behind its opening, and what follows. */
  function AnsiText(a: seq<Byte>, s: seq<Byte>): seq<Byte> {
    Encode(InAnsi, a) + ([SQ] + s)
  }

  lemma AnsiTextFront(a: seq<Byte>, s: seq<Byte>)
    requires a != []
    ensures AnsiText(a, s) == Code(InAnsi, a[0]) + AnsiText(a[1..], s)
  {
    hide Code;
  }

  lemma RawCode(c: Byte)
    requires c != SQ && !Coded(c)
    ensures Code(InAnsi, c) == [c] && c != NEWLINE
  {
  }

  /** A code that begins with a hexadecimal digit is the character itself. */
  lemma HexIsRaw(c: Byte)
    ensures Code(InAnsi, c) != [] && (IsHex(Code(InAnsi, c)[0]) ==> Code(InAnsi, c)[0] == c)
  {
  }

  /** What stands behind the first character of a text that is its own code. */
  lemma SecondCharacter(a: seq<Byte>, s: seq<Byte>)
    requires a != [] && a[0] != SQ && !Coded(a[0])
    ensures AnsiText(a, s)[0] == a[0] && |AnsiText(a, s)| > 1
    ensures AnsiText(a, s)[1] == if |a| == 1 then SQ else Code(InAnsi, a[1])[0]
  {
    hide Code, Coded, Encode;
    AnsiTextFront(a, s);
    RawCode(a[0]);
    if |a| > 1 {
      AnsiTextFront(a[1..], s);
      HexIsRaw(a[1]);
    } else {
      NothingEncoded(a[1..]);
    }
  }

  lemma NothingEncoded(a: seq<Byte>)
    requires a == []
    ensures Encode(InAnsi, a) == []
  {
  }

  lemma KeptIsUnlisted(a: seq<Byte>, s: seq<Byte>)
    requires a != [] && KeptAt(a, 0)
    ensures ReadEscape(AnsiText(a[1..], s)) == Unlisted
  {
    hide Code, Coded, Encode, AnsiText, Letter, IsHex;
    SecondCharacter(a[1..], s);
    if |a| > 2 { HexIsRaw(a[2]); }
  }

  lemma KeptReads(a: seq<Byte>, s: seq<Byte>)
    requires a != [] && a[0] == BS && KeptAt(a, 0)
    ensures Ansi(AnsiText(a, s)) == Then([BS], Ansi(AnsiText(a[1..], s)))
  {
    hide Code, Encode, AnsiText, KeptAt, ReadEscape, Bare, Coded;
    AnsiTextFront(a, s);
    BackslashIsRaw();
    KeptIsUnlisted(a, s);
    assert AnsiText(a, s)[1..] == AnsiText(a[1..], s);
  }

  lemma BackslashIsRaw()
    ensures !Coded(BS) && Code(InAnsi, BS) == [BS]
  {
  }

  /** A text whose backslashes are kept is read back, whatever follows. */
  lemma {:induction false} AnsiReads(a: seq<Byte>, s: seq<Byte>)
    requires NoNuls(a) && AllKept(a)
    ensures Ansi(AnsiText(a, s)) == Then(a, Bare(s))
  {
    hide Code, Encode, AnsiText, KeptAt, Bare, Ansi, AllKept;
    if a == [] {
      NothingReads(s);
    } else {
      var rest := a[1..];
      AllKeptFront(a);
      forall i | 0 <= i < |rest| ensures rest[i] != 0 { assert rest[i] == a[i + 1]; }
      AnsiReads(rest, s);
      if a[0] == BS {
        KeptReads(a, s);
      } else {
        AnsiTextFront(a, s);
        AnsiCodeReads(a[0], AnsiText(rest, s));
      }
      ThenTwice([a[0]], rest, Bare(s));
      assert [a[0]] + rest == a;
    }
  }

  lemma NothingReads(s: seq<Byte>)
    ensures Ansi(AnsiText([], s)) == Then([], Bare(s))
  {
    var t := AnsiText([], s);
    assert t[1..] == s;
    ThenNothing(Bare(s));
  }

  predicate NoNuls(a: seq<Byte>) {
    forall i | 0 <= i < |a| :: a[i] != 0
  }

  /** A string without NUL that survives its escaping. */
  predicate Survives(a: seq<Byte>) {
    NoNuls(a) && (FormOf(a).InAnsi? ==> AllKept(a))
  }

  /** A string that survives is read back, whatever word ends behind it. */
  lemma EscapedReads(a: seq<Byte>, s: seq<Byte>)
    requires Survives(a)
    ensures Bare(Escaped(a) + s) == Then(a, Bare(s))
  {
    hide FormOf, Encode, Carries, In, Code, Bare, Open, Close, AllKept, AnsiText;
    var f := FormOf(a);
    if a == [] {
      EmptyReads(s);
    } else if f.InAnsi? {
      AnsiReads(a, s);
      AnsiOpens(a, s);
    } else {
      forall i | 0 <= i < |a| ensures Carries(f, a[i]) { FormCarries(a, i); }
      EncodeReads(f, a, Close(f) + s);
      OpenReads(f, Encode(f, a) + (Close(f) + s));
      CloseReads(f, s);
      assert Escaped(a) + s == Open(f) + (Encode(f, a) + (Close(f) + s));
    }
  }

  lemma AnsiOpens(a: seq<Byte>, s: seq<Byte>)
    requires a != [] && FormOf(a).InAnsi?
    ensures Bare(Escaped(a) + s) == Ansi(AnsiText(a, s))
  {
    hide Code, Encode, Bare, FormOf, Ansi;
    OpenReads(InAnsi, AnsiText(a, s));
    assert Escaped(a) + s == Open(InAnsi) + AnsiText(a, s);
  }

  lemma EmptyReads(s: seq<Byte>)
    ensures Bare([SQ, SQ] + s) == Then([], Bare(s))
  {
    var t := [SQ, SQ] + s;
    assert t[1..] == [SQ] + s && t[1..][1..] == s;
    match Bare(s) { case Fail => case Word(u, rest) => assert [] + u == u; }
  }

  lemma OpenReads(f: Form, s: seq<Byte>)
    ensures Bare(Open(f) + s) == In(f, s)
  {
    var t := Open(f) + s;
    assert t[|Open(f)|..] == s;
  }

  lemma CloseReads(f: Form, s: seq<Byte>)
    ensures In(f, Close(f) + s) == Bare(s)
  {
    var t := Close(f) + s;
    assert t[|Close(f)|..] == s;
  }

  // ---------------------------------------------------------------- the loops

  lemma AnySnoc(p: Byte -> bool, a: seq<Byte>, c: Byte)
    ensures Any(p, a + [c]) <==> Any(p, a) || p(c)
  {
    var b := a + [c];
    if Any(p, a) {
      var i :| 0 <= i < |a| && p(a[i]);
      assert p(b[i]);
    }
    if p(c) { assert p(b[|a|]); }
  }

  lemma {:induction false} EncodeSnoc(f: Form, a: seq<Byte>, c: Byte)
    ensures Encode(f, a + [c]) == Encode(f, a) + Code(f, c)
  {
    hide Code;
    if a == [] {
      assert (a + [c])[1..] == [];
    } else {
      EncodeSnoc(f, a[1..], c);
      assert (a + [c])[1..] == a[1..] + [c];
    }
  }

  /** The scan of bash_escape_string: the text before the first NUL, and the form its characters ask for. */
  method Scan(s: seq<Byte>) returns (size: nat, f: Form)
    ensures size <= |s| && s[..size] == CPrefix(s) && f == FormOf(s[..size])
  {
    hide CPrefix, Any;
    var ansi, quote, single, escape, hasQuote := false, false, false, false, false;
    size := 0;
    NothingFound();
    while size < |s| && s[size] != 0
      invariant size <= |s| && forall i | 0 <= i < size :: s[i] != 0
      invariant ansi == Any(NeedsAnsi, s[..size]) && quote == Any(NeedsQuote, s[..size])
      invariant single == Any(NeedsSingle, s[..size])
      invariant escape == Any(NeedsEscape, s[..size]) && hasQuote == Any(IsQuote, s[..size])
    {
      var c := s[size];
      assert s[..size + 1] == s[..size] + [c];
      AnySnoc(NeedsAnsi, s[..size], c);
      AnySnoc(NeedsQuote, s[..size], c);
      AnySnoc(NeedsSingle, s[..size], c);
      AnySnoc(NeedsEscape, s[..size], c);
      AnySnoc(IsQuote, s[..size], c);
      if NeedsAnsi(c) {
        ansi := true;
      } else if NeedsQuote(c) {
        quote := true;
      } else if NeedsSingle(c) {
        single := true;
      } else if NeedsEscape(c) {
        escape := true;
      } else if IsQuote(c) {
        hasQuote := true;
      }
      size := size + 1;
    }
    PrefixUnique(s, size);
    f := if ansi || (single && hasQuote) then InAnsi
         else if single then InSingle
         else if quote then InDouble
         else if escape || hasQuote then BareEscaped
         else Plain;
  }

  lemma NothingFound()
    ensures !Any(NeedsAnsi, []) && !Any(NeedsQuote, []) && !Any(NeedsSingle, []) && !Any(NeedsEscape, [])
            && !Any(IsQuote, [])
  {
  }

  /** bash_escape_string: appends the escaped text before the first NUL, and says how long that text is. */
  method BashEscapeString(s: seq<Byte>) returns (out: seq<Byte>, n: nat)
    ensures n == |CPrefix(s)| && out == Escaped(CPrefix(s))
  {
    hide CPrefix, Code, FormOf;
    var f: Form;
    n, f := Scan(s);
    if n == 0 {
      return [SQ, SQ], 0;
    }
    out := Open(f);
    for i := 0 to n
      invariant out == Open(f) + Encode(f, s[..i])
    {
      assert s[..i + 1] == s[..i] + [s[i]];
      EncodeSnoc(f, s[..i], s[i]);
      out := out + Code(f, s[i]);
    }
    out := out + Close(f);
  }

  // ---------------------------------------------------------------- command lines

  function SkipNuls(s: seq<Byte>): (r: seq<Byte>)
    ensures |r| <= |s| && (s != [] && s[0] == 0 ==> |r| < |s|) && r == s[|s| - |r|..]
  {
    if s != [] && s[0] == 0 then SkipNuls(s[1..]) else s
  }

  /** What ConvertRawCmdline takes the raw command line apart into. */
  function Pieces(raw: seq<Byte>): seq<seq<Byte>>
    decreases |raw|
  {
    if raw == [] then []
    else [CPrefix(raw)] + Pieces(SkipNuls(raw[|CPrefix(raw)|..]))
  }

  function Line(ps: seq<seq<Byte>>): seq<Byte> {
    if ps == [] then []
    else
      var before := Line(ps[..|ps| - 1]);
      before + (if before == [] then [] else [SPACE]) + Escaped(ps[|ps| - 1])
  }

  method ConvertRawCmdline(raw: seq<Byte>) returns (cmdline: seq<Byte>)
    ensures cmdline == Line(Pieces(raw))
  {
    hide CPrefix, Escaped, Pieces, Line, SkipNuls;
    cmdline := [];
    var rest := raw;
    ghost var done: seq<seq<Byte>> := [];
    ghost var left := Pieces(raw);
    LineStart();
    while rest != []
      invariant Pieces(raw) == done + left && left == Pieces(rest) && cmdline == Line(done)
      decreases |rest|
    {
      if cmdline != [] {
        cmdline := cmdline + [SPACE];
      }
      var escaped, n := BashEscapeString(rest);
      cmdline := cmdline + escaped;
      ghost var piece := CPrefix(rest);
      PieceNext(rest);
      LineNext(done, piece);
      rest := rest[n..];
      ghost var target := SkipNuls(rest);
      while rest != [] && rest[0] == 0
        invariant SkipNuls(rest) == target
        decreases |rest|
      {
        SkipOne(rest);
        rest := rest[1..];
      }
      SkipOne(rest);
      left := Pieces(rest);
      Regroup(done, piece, left);
      done := done + [piece];
    }
    PiecesOfNothing();
    assert done + [] == done;
  }

  lemma LineStart()
    ensures Line([]) == []
  {
  }

  lemma PiecesOfNothing()
    ensures Pieces([]) == []
  {
  }

  lemma LineNext(ps: seq<seq<Byte>>, p: seq<Byte>)
    ensures Line(ps + [p]) == Line(ps) + (if Line(ps) == [] then [] else [SPACE]) + Escaped(p)
  {
    hide Escaped;
    assert (ps + [p])[..|ps|] == ps;
  }

  lemma PieceNext(s: seq<Byte>)
    requires s != []
    ensures |CPrefix(s)| <= |s| && |SkipNuls(s[|CPrefix(s)|..])| < |s|
    ensures Pieces(s) == [CPrefix(s)] + Pieces(SkipNuls(s[|CPrefix(s)|..]))
  {
  }

  lemma SkipOne(s: seq<Byte>)
    ensures SkipNuls(s) == if s != [] && s[0] == 0 then SkipNuls(s[1..]) else s
  {
  }

  lemma Regroup(a: seq<seq<Byte>>, p: seq<Byte>, b: seq<seq<Byte>>)
    ensures a + ([p] + b) == (a + [p]) + b
  {
  }

  // ---------------------------------------------------------------- command lines are read back

  lemma EscapedIsSomething(a: seq<Byte>)
    ensures Escaped(a) != []
  {
    if a != [] { CodeIsSomething(FormOf(a), a[0]); }
  }

  lemma CodeIsSomething(f: Form, c: Byte)
    ensures Code(f, c) != []
  {
  }

  lemma {:induction false} LineFront(p: seq<Byte>, ps: seq<seq<Byte>>)
    ensures Line([p] + ps) == Escaped(p) + (if ps == [] then [] else [SPACE] + Line(ps))
            && (ps != [] ==> Line(ps) != [])
  {
    hide Escaped;
    EscapedIsSomething(p);
    if ps == [] {
      assert [p] + ps == [] + [p];
      LineNext([], p);
      LineStart();
    } else {
      var n := |ps| - 1;
      assert ps == ps[..n] + [ps[n]] && [p] + ps == ([p] + ps[..n]) + [ps[n]];
      LineNext(ps[..n], ps[n]);
      LineNext([p] + ps[..n], ps[n]);
      LineFront(p, ps[..n]);
      EscapedIsSomething(ps[n]);
      if n == 0 { LineStart(); assert ps[..n] == []; }
    }
  }

  /** Reading the line of pieces that survive gives the pieces. */
  lemma {:induction false} LineReads(ps: seq<seq<Byte>>)
    requires ps != [] && forall i | 0 <= i < |ps| :: Survives(ps[i])
    ensures Words(Line(ps)) == Some(ps)
  {
    hide Escaped, Bare, Survives, Line;
    var p, rest := ps[0], ps[1..];
    assert ps == [p] + rest && Survives(p);
    LineFront(p, rest);
    var tail := if rest == [] then [] else [SPACE] + Line(rest);
    EscapedReads(p, tail);
    BareStops(tail);
    assert p + [] == p;
    assert Bare(Line(ps)) == Word(p, tail);
    if rest != [] {
      LineReads(rest);
      assert tail[0] == SPACE && tail[1..] == Line(rest);
    } else {
      assert ps == [p];
    }
  }

  lemma BareStops(s: seq<Byte>)
    requires s == [] || s[0] == SPACE
    ensures Bare(s) == Word([], s)
  {
  }

  /** The arguments of a command as the kernel passes them: each ends with a NUL. */
  function Raw(args: seq<seq<Byte>>): seq<Byte> {
    if args == [] then [] else args[0] + ([0] + Raw(args[1..]))
  }

  function NonEmpty(args: seq<seq<Byte>>): seq<seq<Byte>> {
    if args == [] then [] else (if args[0] == [] then [] else [args[0]]) + NonEmpty(args[1..])
  }

  lemma TextThenNul(a: seq<Byte>, u: seq<Byte>)
    requires NoNuls(a) && u != [] && u[0] == 0
    ensures CPrefix(a + u) == a && (a + u)[|a|..] == u
  {
    hide CPrefix;
    var t := a + u;
    assert t[|a|] == 0;
    forall i | 0 <= i < |a| ensures t[i] != 0 { assert t[i] == a[i]; }
    PrefixUnique(t, |a|);
  }

  /** Behind a NUL empty arguments are skipped. */
  lemma {:induction false} LaterPieces(args: seq<seq<Byte>>)
    requires forall i | 0 <= i < |args| :: NoNuls(args[i])
    ensures Pieces(SkipNuls(Raw(args))) == NonEmpty(args)
  {
    hide Pieces, SkipNuls, CPrefix;
    var raw := Raw(args);
    SkipOne(raw);
    if args == [] {
      PiecesOfNothing();
    } else {
      var a, rest := args[0], args[1..];
      LaterPieces(rest);
      TextThenNul(a, [0] + Raw(rest));
      SkipOne([0] + Raw(rest));
      assert ([0] + Raw(rest))[1..] == Raw(rest);
      if a == [] {
        assert raw == [0] + Raw(rest);
        assert NonEmpty(args) == [] + NonEmpty(rest) == NonEmpty(rest);
      } else {
        assert raw[0] == a[0];
        PieceNext(raw);
      }
    }
  }

  lemma RawFront(args: seq<seq<Byte>>)
    requires args != []
    ensures Raw(args) == args[0] + ([0] + Raw(args[1..])) && Raw(args) != []
  {
  }

  lemma FirstPiece(a: seq<Byte>, tail: seq<Byte>)
    requires NoNuls(a)
    ensures Pieces(a + ([0] + tail)) == [a] + Pieces(SkipNuls(tail))
  {
    hide Pieces, SkipNuls, CPrefix, NoNuls;
    var u := [0] + tail;
    TextThenNul(a, u);
    PieceNext(a + u);
    SkipOne(u);
    assert u[1..] == tail;
  }

  /** The pieces of a command: the first argument, and of the others those that are not empty. */
  lemma PiecesOf(args: seq<seq<Byte>>)
    requires args != [] && forall i | 0 <= i < |args| :: NoNuls(args[i])
    ensures Pieces(Raw(args)) == [args[0]] + NonEmpty(args[1..])
  {
    hide Pieces, SkipNuls, CPrefix, Raw, NonEmpty, NoNuls;
    var a, rest := args[0], args[1..];
    RawFront(args);
    var tail := Raw(rest);
    FirstPiece(a, tail);
    forall i | 0 <= i < |rest| ensures NoNuls(rest[i]) { assert rest[i] == args[i + 1]; }
    LaterPieces(rest);
  }

  lemma {:induction false} NonEmptyIff(args: seq<seq<Byte>>)
    ensures |NonEmpty(args)| <= |args|
    ensures NonEmpty(args) == args <==> forall i | 0 <= i < |args| :: args[i] != []
  {
    if args != [] {
      NonEmptyIff(args[1..]);
      assert args == [args[0]] + args[1..];
      if args[0] != [] {
        assert NonEmpty(args) == [args[0]] + NonEmpty(args[1..]);
        assert NonEmpty(args) == args ==> NonEmpty(args)[1..] == args[1..];
        assert NonEmpty(args[1..]) == NonEmpty(args)[1..];
      } else {
        assert NonEmpty(args) == [] + NonEmpty(args[1..]) == NonEmpty(args[1..]);
      }
    }
  }

  /**
   * The command line of a command whose arguments survive their escaping is read back as its
   * arguments exactly when no argument but the first is empty.
   */
  lemma CmdlineRoundTrip(args: seq<seq<Byte>>)
    requires args != [] && forall i | 0 <= i < |args| :: Survives(args[i])
    ensures Words(Line(Pieces(Raw(args)))) == Some(args) <==> forall i | 0 < i < |args| :: args[i] != []
  {
    hide Pieces, Raw, Line, Words, Survives, NonEmpty;
    forall i | 0 <= i < |args| ensures NoNuls(args[i]) { SurvivorHasNoNul(args[i]); }
    PiecesOf(args);
    var ps := [args[0]] + NonEmpty(args[1..]);
    forall i | 0 <= i < |ps| ensures Survives(ps[i]) {
      if i > 0 { StillThere(args[1..], i - 1); }
    }
    LineReads(ps);
    NonEmptyIff(args[1..]);
    assert args == [args[0]] + args[1..];
    assert ps == args <==> NonEmpty(args[1..]) == args[1..] by { assert ps[1..] == NonEmpty(args[1..]); }
    assert forall i | 0 < i < |args| :: args[i] == args[1..][i - 1];
    assert forall i | 0 <= i < |args| - 1 :: args[1..][i] == args[i + 1];
  }

  lemma SurvivorHasNoNul(a: seq<Byte>)
    requires Survives(a)
    ensures NoNuls(a)
  {
  }

  lemma {:induction false} StillThere(args: seq<seq<Byte>>, i: nat)
    requires i < |NonEmpty(args)| && forall j | 0 <= j < |args| :: Survives(args[j])
    ensures Survives(NonEmpty(args)[i])
  {
    hide Survives;
    if args != [] {
      if args[0] == [] {
        StillThere(args[1..], i);
      } else if i > 0 {
        StillThere(args[1..], i - 1);
      }
    }
  }
}
