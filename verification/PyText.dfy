/** The Python string operations that the modelled code relies on. */
module PyText {
  import opened Wrappers
  import Decimal

  /** str.isspace for one character: what strip and split remove. */
  predicate IsSpace(c: char) {
    || c == ' ' || '\t' <= c <= '\r' || '\U{1c}' <= c <= '\U{1f}' || c == '\U{85}' || c == '\U{a0}'
    || c == '\U{1680}' || '\U{2000}' <= c <= '\U{200a}' || '\U{2028}' <= c <= '\U{2029}'
    || c == '\U{202f}' || c == '\U{205f}' || c == '\U{3000}'
  }

  predicate AllSpace(s: string) {
    forall c :: c in s ==> IsSpace(c)
  }

  predicate IsWord(s: string) {
    s != [] && forall c :: c in s ==> !IsSpace(c)
  }

  function StripLeft(s: string): string {
    if s != [] && IsSpace(s[0]) then StripLeft(s[1..]) else s
  }

  function StripRight(s: string): string {
    if s != [] && IsSpace(s[|s| - 1]) then StripRight(s[..|s| - 1]) else s
  }

  function Strip(s: string): string {
    StripRight(StripLeft(s))
  }

  /** str.find for one character. */
  function Find(s: string, c: char): Option<nat> {
    if s == [] then None
    else if s[0] == c then Some(0)
    else match Find(s[1..], c) case Some(i) => Some(i + 1) case None => None
  }

  /** str.rfind for one character. */
  function FindLast(s: string, c: char): (r: Option<nat>)
    ensures r.Some? ==> r.value < |s|
  {
    if s == [] then None
    else if s[|s| - 1] == c then Some(|s| - 1)
    else FindLast(s[..|s| - 1], c)
  }

  function WordLength(s: string): (n: nat)
    ensures n <= |s|
    ensures s != [] && !IsSpace(s[0]) ==> n > 0
  {
    if s == [] || IsSpace(s[0]) then 0 else 1 + WordLength(s[1..])
  }

  lemma {:induction false} StripLeftShortens(s: string)
    ensures |StripLeft(s)| <= |s|
    ensures StripLeft(s) != [] ==> !IsSpace(StripLeft(s)[0])
  {
    if s != [] && IsSpace(s[0]) {
      StripLeftShortens(s[1..]);
    }
  }

  /** str.split with no argument. */
  function Split(s: string): seq<string>
    decreases |s|
  {
    StripLeftShortens(s);
    var t := StripLeft(s);
    if t == [] then [] else [t[..WordLength(t)]] + Split(t[WordLength(t)..])
  }

  /** int() on a string: white space, a sign, digits with single underscores between them. */
  function ParseInt(s: string): Option<int> {
    var t := Strip(s);
    if t != [] && t[0] == '-' then (match ParseDigits(t[1..]) case Some(n) => Some(-n) case None => None)
    else if t != [] && t[0] == '+' then ParseDigits(t[1..])
    else ParseDigits(t)
  }

  function ParseDigits(s: string): Option<int> {
    if IsNumeral(s) then Some(Decimal.Value(DropUnderscores(s))) else None
  }

  /** A digit, then any number of digits, each with an underscore before it or none. */
  predicate IsNumeral(s: string) {
    s != [] && Decimal.IsDigit(s[0]) &&
    (|s| == 1 || (if s[1] == '_' then IsNumeral(s[2..]) else IsNumeral(s[1..])))
  }

  function DropUnderscores(s: string): (t: string)
    requires IsNumeral(s)
    ensures forall c :: c in t ==> Decimal.IsDigit(c)
  {
    [s[0]] + if |s| == 1 then [] else if s[1] == '_' then DropUnderscores(s[2..]) else DropUnderscores(s[1..])
  }

  /** The words of `words`, one space between neighbours. */
  function Join(words: seq<string>): string {
    if words == [] then "" else if |words| == 1 then words[0] else words[0] + " " + Join(words[1..])
  }

  // ----- facts

  /** The white space of Python, by code point. */
  lemma SpacesByCode(c: char)
    ensures IsSpace(c) <==>
              || 0x09 <= c as int <= 0x0d || 0x1c <= c as int <= 0x20 || 0x2000 <= c as int <= 0x200a
              || c as int in {0x85, 0xa0, 0x1680, 0x2028, 0x2029, 0x202f, 0x205f, 0x3000}
  {
  }

  /** strip leaves a text alone exactly when it has no white space at either end. */
  lemma StripKeeps(s: string)
    ensures Strip(s) == s <==> s == "" || (!IsSpace(s[0]) && !IsSpace(s[|s| - 1]))
  {
    if s != "" {
      if IsSpace(s[0]) {
        StripLeftShortens(s[1..]);
        StripRightShortens(StripLeft(s));
      } else if IsSpace(s[|s| - 1]) {
        StripRightShortens(s[..|s| - 1]);
      }
    }
  }

  lemma {:induction false} StripRightShortens(s: string)
    ensures |StripRight(s)| <= |s|
  {
    if s != [] && IsSpace(s[|s| - 1]) {
      StripRightShortens(s[..|s| - 1]);
    }
  }

  lemma {:induction false} NoUnderscores(s: string)
    requires s != [] && forall c :: c in s ==> Decimal.IsDigit(c)
    ensures IsNumeral(s) && DropUnderscores(s) == s
  {
    assert s[0] in s;
    if |s| > 1 {
      assert s[1] in s;
      NoUnderscores(s[1..]);
    }
  }

  /** int() undoes decimal notation, with any white space around it. */
  lemma ParseIntOfPrint(before: string, n: nat, after: string)
    requires AllSpace(before) && AllSpace(after)
    ensures ParseInt(before + Decimal.Print(n) + after) == Some(n)
  {
    var digits := Decimal.Print(n);
    assert digits[0] in digits && digits[|digits| - 1] in digits;
    StripAround(before, digits, after);
    NoUnderscores(digits);
    Decimal.ValueOfPrint(n);
  }

  lemma SignIsKept(sign: char, digits: string)
    requires !IsSpace(sign) && digits != [] && forall c :: c in digits ==> Decimal.IsDigit(c)
    ensures Strip([sign] + digits) == [sign] + digits && ([sign] + digits)[1..] == digits
  {
    assert digits[|digits| - 1] in digits;
    StripKeeps([sign] + digits);
  }

  /** int() reads a sign before the digits. */
  lemma ParseSigned(n: nat)
    ensures ParseInt(['-'] + Decimal.Print(n)) == Some(-(n as int))
    ensures ParseInt(['+'] + Decimal.Print(n)) == Some(n)
  {
    hide Strip, ParseDigits;
    ParseDigitsOf(n);
    SignIsKept('-', Decimal.Print(n));
    SignIsKept('+', Decimal.Print(n));
  }

  lemma ParseDigitsOf(n: nat)
    ensures ParseDigits(Decimal.Print(n)) == Some(n)
  {
    NoUnderscores(Decimal.Print(n));
    Decimal.ValueOfPrint(n);
  }

  /** strip removes exactly the white space around a text that begins and ends with none. */
  lemma StripAround(before: string, core: string, after: string)
    requires AllSpace(before) && AllSpace(after)
    requires core != [] && !IsSpace(core[0]) && !IsSpace(core[|core| - 1])
    ensures Strip(before + core + after) == core
  {
    assert before + core + after == before + (core + after);
    StripLeftOf(before, core + after);
    StripRightOf(core, after);
  }

  lemma {:induction false} StripLeftOf(before: string, rest: string)
    requires AllSpace(before) && rest != [] && !IsSpace(rest[0])
    ensures StripLeft(before + rest) == rest
  {
    if before == [] {
      assert before + rest == rest;
    } else {
      assert before[0] in before;
      assert (before + rest)[1..] == before[1..] + rest;
      StripLeftOf(before[1..], rest);
    }
  }

  lemma {:induction false} StripRightOf(rest: string, after: string)
    requires AllSpace(after) && rest != [] && !IsSpace(rest[|rest| - 1])
    ensures StripRight(rest + after) == rest
  {
    if after == [] {
      assert rest + after == rest;
    } else {
      assert after[|after| - 1] in after;
      assert (rest + after)[..|rest + after| - 1] == rest + after[..|after| - 1];
      StripRightOf(rest, after[..|after| - 1]);
    }
  }

  lemma {:induction false} FindAt(before: string, c: char, after: string)
    requires c !in before
    ensures Find(before + [c] + after, c) == Some(|before|)
  {
    var s := before + [c] + after;
    if before != [] {
      assert s[0] == before[0];
      assert s[1..] == before[1..] + [c] + after;
      FindAt(before[1..], c, after);
    }
  }

  lemma {:induction false} FindLastAt(before: string, c: char, after: string)
    requires c !in after
    ensures FindLast(before + [c] + after, c) == Some(|before|)
  {
    var s := before + [c] + after;
    if after != [] {
      var n := |after| - 1;
      assert s[|s| - 1] == after[n];
      assert s[..|s| - 1] == before + [c] + after[..n];
      FindLastAt(before, c, after[..n]);
    } else {
      assert s[|s| - 1] == c;
    }
  }

  lemma {:induction false} FindIsFirst(s: string, c: char)
    ensures var r := Find(s, c);
            && (r.Some? ==> r.value < |s| && s[r.value] == c && c !in s[..r.value])
            && (r.None? ==> c !in s)
  {
    if s != [] && s[0] != c {
      FindIsFirst(s[1..], c);
      var r := Find(s[1..], c);
      if r.Some? {
        assert s[..r.value + 1] == [s[0]] + s[1..][..r.value];
      } else {
        assert s == [s[0]] + s[1..];
      }
    }
  }

  lemma {:induction false} FindLastIsLast(s: string, c: char)
    ensures var r := FindLast(s, c);
            && (r.Some? ==> s[r.value] == c && c !in s[r.value + 1..])
            && (r.None? ==> c !in s)
  {
    if s != [] && s[|s| - 1] != c {
      var n := |s| - 1;
      FindLastIsLast(s[..n], c);
      var r := FindLast(s[..n], c);
      if r.Some? {
        assert s[r.value + 1..] == s[..n][r.value + 1..] + [s[n]];
      } else {
        assert s == s[..n] + [s[n]];
      }
    }
  }

  lemma {:induction false} WordLengthOf(word: string, rest: string)
    requires forall c :: c in word ==> !IsSpace(c)
    requires rest != [] ==> IsSpace(rest[0])
    ensures WordLength(word + rest) == |word|
  {
    if word == [] {
      assert word + rest == rest;
    } else {
      assert (word + rest)[0] == word[0] && word[0] in word;
      assert (word + rest)[1..] == word[1..] + rest;
      WordLengthOf(word[1..], rest);
    }
  }

  lemma WordEnds(w: string)
    requires IsWord(w)
    ensures !IsSpace(w[0]) && !IsSpace(w[|w| - 1])
  {
  }

  lemma SplitWord(word: string, rest: string)
    requires IsWord(word)
    requires rest != [] ==> IsSpace(rest[0])
    ensures Split(word + rest) == [word] + Split(rest)
  {
    var s := word + rest;
    WordEnds(word);
    StripLeftOf("", s);
    assert "" + s == s;
    WordLengthOf(word, rest);
    assert s[..|word|] == word && s[|word|..] == rest;
  }

  lemma SplitAfterSpace(s: string)
    requires s != [] && !IsSpace(s[0])
    ensures IsSpace((" " + s)[0]) && Split(" " + s) == Split(s)
  {
  }

  lemma SplitOne(word: string)
    requires IsWord(word)
    ensures Split(word) == [word]
  {
    SplitWord(word, "");
    assert word + "" == word;
  }

  lemma SplitTwo(word: string, rest: string)
    requires IsWord(word) && rest != [] && !IsSpace(rest[0])
    ensures Split(word + " " + rest) == [word] + Split(rest)
  {
    var spaced := " " + rest;
    hide *;
    SplitAfterSpace(rest);
    SplitWord(word, spaced);
    assert word + " " + rest == word + spaced;
  }

  lemma {:induction false} JoinEnds(words: seq<string>)
    requires words != [] && forall w :: w in words ==> IsWord(w)
    ensures Join(words) != [] && !IsSpace(Join(words)[0]) && !IsSpace(Join(words)[|Join(words)| - 1])
  {
    assert words[0] in words;
    WordEnds(words[0]);
    if |words| > 1 {
      JoinEnds(words[1..]);
    }
  }

  /** split undoes join on words. */
  lemma {:induction false} SplitOfJoin(words: seq<string>)
    requires forall w :: w in words ==> IsWord(w)
    ensures Split(Join(words)) == words
  {
    if words != [] {
      assert words[0] in words;
      if |words| == 1 {
        SplitOne(words[0]);
      } else {
        SplitOfJoin(words[1..]);
        JoinEnds(words[1..]);
        SplitTwo(words[0], Join(words[1..]));
      }
    }
  }
}
