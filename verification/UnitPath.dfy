/** Escaping of systemd unit names into D-Bus object paths, on UTF-16 code units. */
module UnitPath {
  type CodeUnit = c: nat | c < 0x1_0000

  type Units = seq<CodeUnit>

  const UNDERSCORE: CodeUnit := 0x5f

  /** Code units of a text below U+10000; the texts here are ASCII. */
  function Literal(s: string): Units {
    seq(|s|, i requires 0 <= i < |s| => LiteralUnit(s[i]))
  }

  function LiteralUnit(c: char): CodeUnit {
    if c < '\U{10000}' then c as int else 0xfffd
  }

  const PREFIX: Units := Literal("/org/freedesktop/systemd1/unit/")

  /** Lower-case hexadecimal digit. */
  function HexDigit(d: nat): CodeUnit
    requires d < 16
  {
    if d < 10 then 0x30 + d else 0x61 + d - 10
  }

  /** Hexadecimal notation without leading zeros. */
  function Hex(n: nat): (h: Units)
    ensures h != []
  {
    if n < 16 then [HexDigit(n)] else Hex(n / 16) + [HexDigit(n % 16)]
  }

  /** QString::arg with field width 2, base 16 and fill '0': padded to two digits, never cut. */
  function Hex2(n: nat): (h: Units)
    ensures |h| >= 2
  {
    if n < 16 then [HexDigit(0)] + Hex(n) else Hex(n)
  }

  /** What the loop appends for one code unit; `plain` is QChar::isLetterOrNumber. */
  function EscapeOne(c: CodeUnit, plain: CodeUnit -> bool): Units {
    if plain(c) then [c] else [UNDERSCORE] + Hex2(c)
  }

  function Escape(unit: Units, plain: CodeUnit -> bool): Units {
    if unit == [] then [] else EscapeOne(unit[0], plain) + Escape(unit[1..], plain)
  }

  lemma {:induction false} EscapeAppend(a: Units, b: Units, plain: CodeUnit -> bool)
    ensures Escape(a + b, plain) == Escape(a, plain) + Escape(b, plain)
  {
    if a == [] {
      assert a + b == b;
    } else {
      assert (a + b)[1..] == a[1..] + b;
      EscapeAppend(a[1..], b, plain);
    }
  }

  method SystemdUnitObjectPath(unit: Units, plain: CodeUnit -> bool) returns (path: Units)
    ensures path == PREFIX + Escape(unit, plain)
  {
    var escaped: Units := [];
    for i := 0 to |unit|
      invariant escaped == Escape(unit[..i], plain)
    {
      EscapeAppend(unit[..i], [unit[i]], plain);
      assert unit[..i + 1] == unit[..i] + [unit[i]];
      assert Escape([unit[i]], plain) == EscapeOne(unit[i], plain);
      if plain(unit[i]) {
        escaped := escaped + [unit[i]];
      } else {
        escaped := escaped + ([UNDERSCORE] + Hex2(unit[i]));
      }
    }
    assert unit[..|unit|] == unit;
    path := PREFIX + escaped;
  }

  // ----- the decoder

  function HexValue(c: CodeUnit): nat {
    if 0x30 <= c <= 0x39 then c - 0x30 else if 0x61 <= c <= 0x66 then c - 0x61 + 10 else 0
  }

  /** Reads an underscore and two hexadecimal digits as one code unit, anything else as itself. */
  function Decode(path: Units): Units {
    if path == [] then []
    else if path[0] == UNDERSCORE && |path| >= 3 then
      [16 * (HexValue(path[1]) % 16) + HexValue(path[2]) % 16] + Decode(path[3..])
    else [path[0]] + Decode(path[1..])
  }

  /** Every code unit that needs escaping fits the two digits. */
  ghost predicate Decodable(unit: Units, plain: CodeUnit -> bool) {
    forall c :: c in unit && !plain(c) ==> c < 0x100
  }

  lemma TwoDigits(c: CodeUnit)
    requires c < 0x100
    ensures Hex2(c) == [HexDigit(c / 16), HexDigit(c % 16)]
    ensures 16 * (HexValue(HexDigit(c / 16)) % 16) + HexValue(HexDigit(c % 16)) % 16 == c
  {
    if c >= 16 {
      assert Hex(c / 16) == [HexDigit(c / 16)];
    }
  }

  lemma DecodeOne(c: CodeUnit, rest: Units, plain: CodeUnit -> bool)
    requires !plain(UNDERSCORE)
    requires plain(c) || c < 0x100
    ensures Decode(EscapeOne(c, plain) + rest) == [c] + Decode(rest)
  {
    var s := EscapeOne(c, plain) + rest;
    if plain(c) {
      assert s[1..] == rest;
    } else {
      TwoDigits(c);
      assert s[3..] == rest;
    }
  }

  /** A code unit that needs more than two digits never comes back as itself. */
  lemma WideIsMisread(c: CodeUnit, rest: Units, plain: CodeUnit -> bool)
    requires !plain(c) && c >= 0x100
    ensures Decode(EscapeOne(c, plain) + rest) != []
    ensures Decode(EscapeOne(c, plain) + rest)[0] != c
  {
  }

  /** The path gives the unit name back exactly when every escaped code unit is below 0x100. */
  lemma {:induction false} DecodeUndoesEscape(unit: Units, plain: CodeUnit -> bool)
    requires !plain(UNDERSCORE)
    ensures Decode(Escape(unit, plain)) == unit <==> Decodable(unit, plain)
  {
    if unit != [] {
      var c, tail := unit[0], Escape(unit[1..], plain);
      DecodeUndoesEscape(unit[1..], plain);
      if plain(c) || c < 0x100 {
        DecodeOne(c, tail, plain);
        assert unit == [c] + unit[1..];
        assert [c] + Decode(tail) == unit <==> Decode(tail) == unit[1..] by {
          assert ([c] + Decode(tail))[1..] == Decode(tail);
        }
        assert Decodable(unit, plain) <==> Decodable(unit[1..], plain);
      } else {
        WideIsMisread(c, tail, plain);
        assert c in unit;
      }
    }
  }

  /** Distinct decodable units have distinct object paths. */
  lemma PathsAreDistinct(a: Units, b: Units, plain: CodeUnit -> bool)
    requires !plain(UNDERSCORE)
    ensures Decodable(a, plain) && Decodable(b, plain) && a != b ==>
              PREFIX + Escape(a, plain) != PREFIX + Escape(b, plain)
  {
    assert (PREFIX + Escape(a, plain))[|PREFIX|..] == Escape(a, plain);
    assert (PREFIX + Escape(b, plain))[|PREFIX|..] == Escape(b, plain);
    DecodeUndoesEscape(a, plain);
    DecodeUndoesEscape(b, plain);
  }

  /** Beyond that the escape is not injective: an em dash collides with a space followed by "14". */
  lemma WideUnitsCollide(plain: CodeUnit -> bool)
    requires !plain(0x2014) && !plain(0x20) && plain(0x31) && plain(0x34)
    ensures Escape([0x2014], plain) == Escape([0x20, 0x31, 0x34], plain)
  {
    assert Hex(0x2014) == Hex(0x201) + [HexDigit(4)] && Hex(0x201) == Hex(0x20) + [HexDigit(1)];
    assert Hex(0x20) == Hex(2) + [HexDigit(0)];
    assert Escape([0x2014], plain) == [UNDERSCORE, 0x32, 0x30, 0x31, 0x34];
    assert [0x20, 0x31, 0x34][1..] == [0x31, 0x34] && [0x31, 0x34][1..] == [0x34];
    assert Escape([0x34], plain) == [0x34];
    assert Escape([0x31, 0x34], plain) == [0x31, 0x34];
  }

  // ----- the tray's own units

  /** ASCII letters and digits are plain, hyphen and full stop are not. */
  ghost predicate PlainAscii(plain: CodeUnit -> bool) {
    && (forall c: CodeUnit :: 0x30 <= c <= 0x39 || 0x41 <= c <= 0x5a || 0x61 <= c <= 0x7a ==> plain(c))
    && !plain(0x2d) && !plain(0x2e)
  }

  /** A word of letters stands for itself. */
  lemma {:induction false} WordsStay(word: Units, plain: CodeUnit -> bool)
    requires forall c :: c in word ==> plain(c)
    ensures Escape(word, plain) == word
  {
    if word != [] {
      assert word[0] in word && forall c :: c in word[1..] ==> c in word;
      WordsStay(word[1..], plain);
    }
  }

  lemma LettersArePlain(word: string, plain: CodeUnit -> bool)
    requires PlainAscii(plain) && forall c :: c in word ==> 'a' <= c <= 'z'
    ensures forall c :: c in Literal(word) ==> plain(c)
  {
    forall i | 0 <= i < |word|
      ensures plain(Literal(word)[i])
    {
      assert word[i] in word;
    }
  }

  lemma OneEscaped(mark: string, escaped: string, plain: CodeUnit -> bool)
    requires PlainAscii(plain)
    requires (mark == "-" && escaped == "_2d") || (mark == "." && escaped == "_2e")
    ensures Escape(Literal(mark), plain) == Literal(escaped)
  {
    var u := LiteralUnit(mark[0]);
    assert Literal(mark) == [u];
    assert Escape([u], plain) == EscapeOne(u, plain);
    assert Hex(u) == Hex(2) + [HexDigit(u % 16)];
    assert Hex(2) == [HexDigit(2)];
  }

  /** A name that begins with a word of small letters and one escaped mark. */
  lemma EscapeStep(word: string, mark: string, escaped: string, rest: string, path: string, plain: CodeUnit -> bool)
    requires PlainAscii(plain) && (forall c :: c in word ==> 'a' <= c <= 'z')
    requires (mark == "-" && escaped == "_2d") || (mark == "." && escaped == "_2e")
    requires Escape(Literal(rest), plain) == Literal(path)
    ensures Escape(Literal(word + mark + rest), plain) == Literal(word + escaped + path)
  {
    hide Escape;
    assert Literal(word + mark + rest) == Literal(word) + Literal(mark) + Literal(rest);
    assert Literal(word + escaped + path) == Literal(word) + Literal(escaped) + Literal(path);
    EscapeAppend(Literal(word) + Literal(mark), Literal(rest), plain);
    EscapeAppend(Literal(word), Literal(mark), plain);
    LettersArePlain(word, plain);
    WordsStay(Literal(word), plain);
    OneEscaped(mark, escaped, plain);
  }

  /** okay-hermes-realtime-controller.service */
  const CONTROLLER_UNIT := "okay" + "-" + ("hermes" + "-" + ("realtime" + "-" + ("controller" + "." + "service")))

  /** okay_2dhermes_2drealtime_2dcontroller_2eservice */
  const CONTROLLER_PATH :=
    "okay" + "_2d" + ("hermes" + "_2d" + ("realtime" + "_2d" + ("controller" + "_2e" + "service")))

  /** The object path of the tray's controller unit. */
  lemma ControllerPath(plain: CodeUnit -> bool)
    requires PlainAscii(plain)
    ensures PREFIX + Escape(Literal(CONTROLLER_UNIT), plain)
         == Literal("/org/freedesktop/systemd1/unit/") + Literal(CONTROLLER_PATH)
  {
    hide Escape, Literal;
    ServiceStays(plain);
    EscapeStep("controller", ".", "_2e", "service", "service", plain);
    EscapeStep("realtime", "-", "_2d", "controller" + "." + "service", "controller" + "_2e" + "service", plain);
    EscapeStep("hermes", "-", "_2d", "realtime" + "-" + ("controller" + "." + "service"),
               "realtime" + "_2d" + ("controller" + "_2e" + "service"), plain);
    EscapeStep("okay", "-", "_2d", "hermes" + "-" + ("realtime" + "-" + ("controller" + "." + "service")),
               "hermes" + "_2d" + ("realtime" + "_2d" + ("controller" + "_2e" + "service")), plain);
  }

  lemma ServiceStays(plain: CodeUnit -> bool)
    requires PlainAscii(plain)
    ensures Escape(Literal("service"), plain) == Literal("service")
  {
    LettersArePlain("service", plain);
    WordsStay(Literal("service"), plain);
  }
}
