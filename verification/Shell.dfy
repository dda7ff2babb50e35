/**
 * How a shell reads quoted words: section 2.2 (Quoting) of the POSIX.1-2017 Shell Command Language,
 * and section 3.1.2.4 (ANSI-C Quoting) of the Bash Reference Manual, in a UTF-8 locale. An escape
 * sequence of ANSI-C quoting that the manual does not list keeps its backslash, and a NUL ends the
 * quoted text, as in the shell. Expansions are not read: an unquoted or double-quoted dollar sign or
 * backquote makes the reading fail.
 */
module Shell {
  import opened Bytes
  import opened Wrappers

  const SQ: Byte := 39     // '
  const DQ: Byte := 34     // "
  const BS: Byte := 92     // \
  const DOLLAR: Byte := 36
  const TICK: Byte := 96
  const SPACE: Byte := 32
  const NEWLINE: Byte := 10
  const LOWER_C: Byte := 99

  /** The characters that end an unquoted word. */
  predicate Meta(c: Byte) {
    c == SPACE || c == 9 || c == NEWLINE || c == 38 || c == 40 || c == 41 || c == 59 || c == 60 || c == 62 || c == 124
  }

  /** A word's text and what follows the word. */
  datatype Read = Fail | Word(text: seq<Byte>, rest: seq<Byte>)

  function Then(y: seq<Byte>, r: Read): (q: Read)
    ensures q.Word? <==> r.Word?
    ensures q.Word? ==> q.text == y + r.text && q.rest == r.rest
  {
    match r case Fail => Fail case Word(t, rest) => Word(y + t, rest)
  }

  function Bare(s: seq<Byte>): (r: Read)
    ensures r.Word? ==> |r.rest| <= |s|
    decreases |s|
  {
    if s == [] then Word([], [])
    else if Meta(s[0]) then Word([], s)
    else if s[0] == BS then
      if |s| == 1 then Fail else if s[1] == NEWLINE then Bare(s[2..]) else Then([s[1]], Bare(s[2..]))
    else if s[0] == SQ then Single(s[1..])
    else if s[0] == DQ then Double(s[1..])
    else if s[0] == TICK then Fail
    else if s[0] == DOLLAR then if |s| > 1 && s[1] == SQ then Ansi(s[2..]) else Fail
    else Then([s[0]], Bare(s[1..]))
  }

  function Single(s: seq<Byte>): (r: Read)
    ensures r.Word? ==> |r.rest| <= |s|
    decreases |s|
  {
    if s == [] then Fail
    else if s[0] == SQ then Bare(s[1..])
    else Then([s[0]], Single(s[1..]))
  }

  function Double(s: seq<Byte>): (r: Read)
    ensures r.Word? ==> |r.rest| <= |s|
    decreases |s|
  {
    if s == [] then Fail
    else if s[0] == DQ then Bare(s[1..])
    else if s[0] == TICK || s[0] == DOLLAR then Fail
    else if s[0] == BS && |s| == 1 then Fail
    else if s[0] == BS && s[1] == NEWLINE then Double(s[2..])
    else if s[0] == BS && (s[1] == DQ || s[1] == BS || s[1] == TICK || s[1] == DOLLAR) then Then([s[1]], Double(s[2..]))
    else Then([s[0]], Double(s[1..]))
  }

  function Ansi(s: seq<Byte>): (r: Read)
    ensures r.Word? ==> |r.rest| <= |s|
    decreases |s|
  {
    if s == [] then Fail
    else if s[0] == SQ then Bare(s[1..])
    else if s[0] == BS then
      match ReadEscape(s[1..])
      case Unlisted => Then([BS], Ansi(s[1..]))
      case Nul(n) => Cut(s[1 + n..])
      case Found(bytes, n) => Then(bytes, Ansi(s[1 + n..]))
    else Then([s[0]], Ansi(s[1..]))
  }

  /** Behind a NUL nothing counts up to the closing quote. */
  function Cut(s: seq<Byte>): (r: Read)
    ensures r.Word? ==> |r.rest| <= |s|
    decreases |s|
  {
    if s == [] then Fail
    else if s[0] == SQ then Bare(s[1..])
    else if s[0] == BS then if |s| == 1 then Fail else Cut(s[2..])
    else Cut(s[1..])
  }

  /** An escape sequence behind its backslash: the bytes it stands for and its length. */
  datatype EscapeSeq = Unlisted | Nul(len: nat) | Found(bytes: seq<Byte>, len: nat)

  function ReadEscape(s: seq<Byte>): (e: EscapeSeq)
    ensures !e.Unlisted? ==> 0 < e.len <= |s|
  {
    if s == [] then Unlisted
    else if Letter(s[0]) != 0 then Found([Letter(s[0])], 1)
    else if IsOctal(s[0]) then Narrow(OctalValue(s, 1, s[0] - 48))
    else if s[0] == LOWER_C then Control(s)
    else if HexDigits(s[0]) > 0 && |s| > 1 && IsHex(s[1]) then
      if s[0] == 120 then Narrow(HexNumber(s, 1, 3, 0)) else Wide(HexNumber(s, 1, 1 + HexDigits(s[0]), 0))
    else Unlisted
  }

  /** How many hexadecimal digits may follow x, u and U. */
  function HexDigits(c: Byte): nat {
    if c == 120 then 2 else if c == 117 then 4 else if c == 85 then 8 else 0
  }

  /**
   * A control character, \cx; a backslash in the place of x may be doubled, and otherwise lets the
   * character behind it stand for itself.
   */
  function Control(s: seq<Byte>): (e: EscapeSeq)
    requires s != []
    ensures !e.Unlisted? ==> 0 < e.len <= |s|
  {
    if |s| == 1 || s[1] == SQ then Unlisted
    else if s[1] == BS then
      if |s| == 2 then Unlisted else if s[2] == BS then Found([28], 3) else Found([28, s[2]], 3)
    else Narrow((ControlOf(s[1]), 2))
  }

  function ControlOf(c: Byte): Byte {
    if c == 63 then 127 else c % 32
  }

  /** \a \b \e \E \f \n \r \t \v and the characters that stand for themselves. */
  function Letter(c: Byte): Byte {
    if c == 97 then 7 else if c == 98 then 8 else if c == 101 || c == 69 then 27 else if c == 102 then 12
    else if c == 110 then 10 else if c == 114 then 13 else if c == 116 then 9 else if c == 118 then 11
    else if c == BS || c == SQ || c == DQ || c == 63 then c
    else 0
  }

  predicate IsOctal(c: Byte) {
    48 <= c <= 55
  }

  predicate IsHex(c: Byte) {
    48 <= c <= 57 || 65 <= c <= 70 || 97 <= c <= 102
  }

  function HexValue(c: Byte): (v: nat)
    requires IsHex(c)
    ensures v < 16
  {
    if c <= 57 then c - 48 else if c <= 70 then c - 55 else c - 87
  }

  /** One to three octal digits. */
  function OctalValue(s: seq<Byte>, n: nat, v: nat): (r: (nat, nat))
    requires 0 < n <= |s| && n <= 3
    ensures 0 < r.1 <= |s| && r.1 <= 3
    decreases 3 - n
  {
    if n < 3 && n < |s| && IsOctal(s[n]) then OctalValue(s, n + 1, v * 8 + s[n] - 48) else (v, n)
  }

  /** The hexadecimal digits from n on, up to position max. */
  function HexNumber(s: seq<Byte>, n: nat, max: nat, v: nat): (r: (nat, nat))
    requires 0 < n <= |s|
    ensures n <= r.1 <= |s| && (n <= max ==> r.1 <= max)
    decreases |s| - n
  {
    if n < max && n < |s| && IsHex(s[n]) then HexNumber(s, n + 1, max, v * 16 + HexValue(s[n])) else (v, n)
  }

  /** An eight-bit value. */
  function Narrow(vn: (nat, nat)): (e: EscapeSeq)
    ensures !e.Unlisted? && e.len == vn.1
  {
    if vn.0 % 256 == 0 then Nul(vn.1) else Found([vn.0 % 256], vn.1)
  }

  /** A Unicode character. */
  function Wide(vn: (nat, nat)): (e: EscapeSeq)
    ensures !e.Unlisted? && e.len == vn.1
  {
    if vn.0 == 0 then Nul(vn.1) else Found(Utf8(vn.0), vn.1)
  }

  /** Its encoding; values of more than 31 bits do not name a character. */
  function Utf8(v: nat): (r: seq<Byte>)
    ensures r != [] && |r| <= 6
    ensures v < 0x80 ==> |r| == 1
    ensures v < 0x800 ==> |r| <= 2
    ensures v < 0x10000 ==> |r| <= 3
  {
    if v < 0x80 then [v]
    else if v < 0x800 then [192 + v / 64, 128 + v % 64]
    else if v < 0x10000 then [224 + v / 4096, 128 + v / 64 % 64, 128 + v % 64]
    else if v < 0x200000 then [240 + v / 262144, 128 + v / 4096 % 64, 128 + v / 64 % 64, 128 + v % 64]
    else if v < 0x4000000 then
      [248 + v / 16777216, 128 + v / 262144 % 64, 128 + v / 4096 % 64, 128 + v / 64 % 64, 128 + v % 64]
    else
      [252 + v / 1073741824 % 4, 128 + v / 16777216 % 64, 128 + v / 262144 % 64, 128 + v / 4096 % 64,
       128 + v / 64 % 64, 128 + v % 64]
  }

  /** The value of a string that is one word. */
  function Unquote(s: seq<Byte>): Option<seq<Byte>> {
    match Bare(s) case Word(t, rest) => if rest == [] then Some(t) else None case Fail => None
  }

  /** The words of a command line, separated by single spaces. */
  function Words(s: seq<Byte>): Option<seq<seq<Byte>>>
    decreases |s|
  {
    match Bare(s)
    case Fail => None
    case Word(t, rest) =>
      if rest == [] then Some([t])
      else if rest[0] != SPACE then None
      else match Words(rest[1..]) case None => None case Some(ws) => Some([t] + ws)
  }
}
