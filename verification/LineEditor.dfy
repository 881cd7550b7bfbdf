/** The seek-address line: what the keys leave in `inbuf`, and the number `strtoull` makes of it. */
module LineEditor {
  import opened Words
  import Hex

  const KB_SEEK := 0x0A
  const KB_QUIT := 0x1B
  const KB_BACK := 0x7F
  const KB_LEFT := 0x445B1B
  const KB_DEL  := 0x335B1B

  /** The line holds at most this many characters; `inbuf` has room for one NUL more. */
  const LINEMAX := 15

  /** A key press: the code keeps the low three bytes of what the terminal sends. */
  type Key = nat

  predicate Printable(key: nat) { 0x20 <= key <= 0x7E }

  predicate Erases(code: nat) { code == KB_BACK || code == KB_LEFT || code == KB_DEL }

  // ----- the editor as a stack of characters --------------------------------

  datatype Line = Typing(text: string) | Entered(text: string)

  /** One key on a line that is still open. */
  function EditStep(text: string, key: Key): Line {
    if key == KB_SEEK then Entered(text)
    else if key == KB_QUIT then Entered("")
    else if Erases(key) then Typing(if text == "" then "" else text[..|text| - 1])
    else if Printable(key) then
      var longer := text + [key as char];
      if |longer| == LINEMAX then Entered(longer) else Typing(longer)
    else Typing(text)
  }

  /** The line after the keys from `start` up to `n`, opened empty. */
  function Edit(keys: seq<Key>, start: nat, n: nat): Line
    requires start <= n <= |keys|
  {
    if n == start then Typing("")
    else match Edit(keys, start, n - 1)
      case Typing(text) => EditStep(text, keys[n - 1])
      case Entered(text) => Entered(text)
  }

  predicate AllPrintable(s: string) {
    forall i :: 0 <= i < |s| ==> Printable(s[i] as nat)
  }

  /** The line never holds more than 15 characters, all printable. */
  lemma {:induction false} EditBounds(keys: seq<Key>, start: nat, n: nat)
    requires start <= n <= |keys|
    ensures var line := Edit(keys, start, n);
      && |line.text| <= LINEMAX && AllPrintable(line.text)
      && (line.Typing? ==> |line.text| < LINEMAX)
    decreases n
  {
    if n > start { EditBounds(keys, start, n - 1); }
  }

  /** An erasing key takes back the character before it, unless that one closed the line. */
  lemma EraseUndoes(text: string, key: Key, erase: Key)
    requires |text| < LINEMAX && Printable(key) && Erases(erase)
    ensures EditStep(text, key).Typing? <==> |text| + 1 < LINEMAX
    ensures |text| + 1 < LINEMAX ==> EditStep(EditStep(text, key).text, erase) == Typing(text)
  {
    var longer := text + [key as char];
    assert longer[..|longer| - 1] == text;
  }

  /** What is left of the keys, told from the last one back: an erasing key takes back the nearest character
      before it that none behind it has taken. `pending` of them wait; those that find none are lost. */
  function Kept(keys: seq<Key>, start: nat, n: nat, pending: nat): string
    requires start <= n <= |keys|
    decreases n
  {
    if n == start then ""
    else
      var key := keys[n - 1];
      if key == 0x7F || key == 0x445B1B || key == 0x335B1B then Kept(keys, start, n - 1, pending + 1)
      else if !(0x20 <= key <= 0x7E) then Kept(keys, start, n - 1, pending)
      else if pending > 0 then Kept(keys, start, n - 1, pending - 1)
      else Kept(keys, start, n - 1, 0) + [key as char]
  }

  /** An open line holds the characters that are left of all its keys: other keys, and erasing keys that find
      nothing, do no harm. */
  lemma {:induction false} OpenLineKeeps(keys: seq<Key>, start: nat, n: nat, pending: nat)
    requires start <= n <= |keys| && Edit(keys, start, n).Typing?
    ensures var text := Edit(keys, start, n).text;
      Kept(keys, start, n, pending) == if pending <= |text| then text[..|text| - pending] else ""
    decreases n
  {
    if start < n {
      var t, key := Edit(keys, start, n - 1).text, keys[n - 1];
      if Erases(key) {
        OpenLineKeeps(keys, start, n - 1, pending + 1);
      } else if Printable(key) {
        OpenLineKeeps(keys, start, n - 1, if pending > 0 then pending - 1 else 0);
      } else {
        OpenLineKeeps(keys, start, n - 1, pending);
      }
    }
  }

  /** A line is entered by newline as it is, by escape as the empty line, and by its fifteenth character. */
  lemma LineEnds(keys: seq<Key>, start: nat, n: nat)
    requires start <= n < |keys| && Edit(keys, start, n).Typing?
    ensures var key, text, line := keys[n], Kept(keys, start, n, 0), Edit(keys, start, n + 1);
      && (line.Entered? <==> key == 0x0A || key == 0x1B || (0x20 <= key <= 0x7E && |text| == 14))
      && (line.Entered? ==> line.text == if key == 0x0A then text else if key == 0x1B then "" else text + [key as char])
  {
    OpenLineKeeps(keys, start, n, 0);
    var text := Edit(keys, start, n).text;
    assert text[..|text|] == text;
    EditBounds(keys, start, n);
  }

  // ----- the C string it is kept in -----------------------------------------

  /** The buffer holds `text` and NULs behind it. */
  predicate Holds(buf: seq<char>, text: string) {
    && |text| < |buf| && '\0' !in text
    && (forall j :: 0 <= j < |text| ==> buf[j] == text[j])
    && (forall j :: |text| <= j < |buf| ==> buf[j] == '\0')
  }

  /** The editing loop: takes keys until the line is entered or the keys run out. */
  method EditLine(keys: seq<Key>, start: nat, inbuf: array<char>) returns (next: nat, entered: bool)
    requires start <= |keys| && inbuf.Length == LINEMAX + 1
    requires forall j :: 0 <= j < inbuf.Length ==> inbuf[j] == '\0'
    modifies inbuf
    ensures start <= next <= |keys| && (entered || next == |keys|)
    ensures forall m :: start <= m < next ==> Edit(keys, start, m).Typing?
    ensures entered <==> Edit(keys, start, next).Entered?
    ensures CString(inbuf[..]) == Edit(keys, start, next).text
    ensures inbuf[LINEMAX] == '\0'
  {
    var i := 0;
    next, entered := start, false;
    ghost var line := Typing("");
    while i < LINEMAX && next < |keys|
      invariant 0 <= i <= LINEMAX && start <= next <= |keys|
      invariant forall m :: start <= m < next ==> Edit(keys, start, m).Typing?
      invariant line == Edit(keys, start, next)
      invariant !entered && |line.text| == i && Holds(inbuf[..], line.text) && (line.Entered? <==> i == LINEMAX)
      decreases |keys| - next
    {
      line := EditStep(line.text, keys[next]);
      var ch := keys[next];
      next := next + 1;
      if ch == KB_SEEK { entered := true; break; }
      if ch == KB_QUIT {
        inbuf[0] := '\0';
        entered := true;
        break;
      }
      if ch == KB_LEFT { ch := KB_BACK; }
      if ch == KB_DEL { ch := KB_BACK; }
      if ch == KB_BACK && i > 0 {
        i := i - 1;
        inbuf[i] := '\0';
      }
      if ch < 0x20 || ch > 0x7E { continue; }
      inbuf[i] := ch as char;
      i := i + 1;
    }
    CStringOf(inbuf[..], line.text);
    entered := entered || i == LINEMAX;
  }

  // ----- strtoull(text, NULL, 16) -------------------------------------------

  predicate IsSpace(c: char) { c == ' ' || '\t' <= c <= '\r' }

  function SkipSpaces(s: string): (r: string)
    ensures |r| <= |s|
  {
    if s != "" && IsSpace(s[0]) then SkipSpaces(s[1..]) else s
  }

  /** The prefix `0x` is skipped when a digit follows it. */
  function SkipPrefix(s: string): (r: string)
    ensures |r| <= |s|
  {
    if |s| >= 3 && s[0] == '0' && (s[1] == 'x' || s[1] == 'X') && Hex.IsDigit(s[2]) then s[2..] else s
  }

  predicate Negated(text: string) {
    var s := SkipSpaces(text);
    s != "" && s[0] == '-'
  }

  /** The digits after blanks, sign and prefix. */
  function Numeral(text: string): string {
    var s := SkipSpaces(text);
    Hex.DigitPrefix(SkipPrefix(if s != "" && (s[0] == '-' || s[0] == '+') then s[1..] else s))
  }

  /** A minus negates modulo 2^64; a number too large gives the maximum. */
  function StrToULL(text: string): (word: nat)
    ensures word < 0x1_0000_0000_0000_0000
  {
    var value := Hex.ValueOf(Numeral(text));
    if value >= 0x1_0000_0000_0000_0000 then 0xFFFF_FFFF_FFFF_FFFF
    else if Negated(text) && value > 0 then 0x1_0000_0000_0000_0000 - value
    else value
  }

  /** A 64-bit word taken as `long long`. */
  function AsSigned(word: nat): int {
    if word < 0x8000_0000_0000_0000 then word else word - 0x1_0000_0000_0000_0000
  }

  /** The position a line asks for: its number as a signed 64-bit word, with the low four bits cleared. */
  function SeekPosition(text: string): int {
    Align(AsSigned(StrToULL(text)), 16)
  }

  lemma NumeralBound(text: string)
    requires |text| <= LINEMAX
    ensures Hex.ValueOf(Numeral(text)) < if Negated(text) then 0x100_0000_0000_0000 else 0x1000_0000_0000_0000
  {
    var digits := Numeral(text);
    Hex.ValueBound(digits);
    Pow16Grows(|digits|, if Negated(text) then 14 else 15);
    Pow16Values();
  }

  /** What fifteen characters can say: the aligned value of the digits, negative after a minus sign; a
      multiple of 16 below 2^60, and no less than -2^56. */
  lemma SeekPositionBounds(text: string)
    requires |text| <= LINEMAX
    ensures var value: int := Hex.ValueOf(Numeral(text));
      SeekPosition(text) == Align(if Negated(text) then -value else value, 16)
    ensures -0x100_0000_0000_0000 <= SeekPosition(text) < 0x1000_0000_0000_0000
    ensures SeekPosition(text) % 16 == 0
  {
    NumeralBound(text);
    var value := Hex.ValueOf(Numeral(text));
    WordValue(if Negated(text) && value > 0 then 0x1_0000_0000_0000_0000 - value else value);
  }

  lemma WordValue(word: nat)
    requires word < 0x1000_0000_0000_0000 || 0xFF00_0000_0000_0000 <= word < 0x1_0000_0000_0000_0000
    ensures var p := Align(AsSigned(word), 16);
      && p % 16 == 0 && p == Align(if word < 0x1000_0000_0000_0000 then word else word - 0x1_0000_0000_0000_0000, 16)
      && if word < 0x1000_0000_0000_0000 then 0 <= p < 0x1000_0000_0000_0000 else -0x100_0000_0000_0000 <= p < 0
  {
  }

  /** A line of hexadecimal digits means their value. */
  lemma {:induction false} DigitsMeanValue(text: string)
    requires text != "" && Hex.AllDigits(text) && |text| <= LINEMAX
    ensures StrToULL(text) == Hex.ValueOf(text) < 0x1000_0000_0000_0000
    ensures SeekPosition(text) == Align(Hex.ValueOf(text), 16)
  {
    NumeralOfDigits(text);
    NumeralBound(text);
  }

  lemma NumeralOfDigits(text: string)
    requires text != "" && Hex.AllDigits(text)
    ensures Numeral(text) == text && !Negated(text)
  {
    Hex.PrefixStops(text, "");
    assert text + "" == text;
    assert Hex.IsDigit(text[0]);
    assert !IsSpace(text[0]) && text[0] != '-' && text[0] != '+';
    if |text| >= 3 { assert Hex.IsDigit(text[1]); }
  }

  lemma {:induction false} SkipBlanks(blanks: string, s: string)
    requires (forall i :: 0 <= i < |blanks| ==> IsSpace(blanks[i])) && (s == "" || !IsSpace(s[0]))
    ensures SkipSpaces(blanks + s) == s
  {
    if blanks == "" {
      assert "" + s == s;
    } else {
      SkipBlanks(blanks[1..], s);
      assert (blanks + s)[1..] == blanks[1..] + s;
    }
  }

  /** A lone 0 with an `x` and a digit behind it is read as the prefix of what follows. */
  predicate LooksPrefixed(prefix: string, digits: string, rest: string) {
    prefix == "" && digits == "0" && |rest| >= 2 && (rest[0] == 'x' || rest[0] == 'X') && Hex.IsDigit(rest[1])
  }

  /** What can stand behind the digits: any text that does not go on with a digit. In the one odd case the
      numeral is what follows the `x`, and must happen to be a lone 0 again. */
  predicate EndsNumeral(prefix: string, digits: string, rest: string) {
    if LooksPrefixed(prefix, digits, rest) then rest[1] == '0' && (|rest| == 2 || !Hex.IsDigit(rest[2]))
    else rest == "" || !Hex.IsDigit(rest[0])
  }

  /** The numeral of a text is a given digit string exactly when what stands behind it ends it; blanks, a sign
      and the prefix `0x` do not disturb it, and only a minus negates it. */
  lemma SpellingMeansDigits(blanks: string, sign: string, prefix: string, digits: string, rest: string)
    requires forall i :: 0 <= i < |blanks| ==> IsSpace(blanks[i])
    requires sign in {"", "+", "-"} && prefix in {"", "0x", "0X"}
    requires digits != "" && Hex.AllDigits(digits)
    ensures var text := blanks + (sign + (prefix + (digits + rest)));
      (Numeral(text) == digits <==> EndsNumeral(prefix, digits, rest)) && (Negated(text) <==> sign == "-")
  {
    var number := prefix + (digits + rest);
    assert (digits + rest)[0] == digits[0] && Hex.IsDigit(digits[0]);
    SignedNumber(blanks, sign, number);
    NumberEnds(prefix, digits, rest);
  }

  lemma SignedNumber(blanks: string, sign: string, number: string)
    requires forall i :: 0 <= i < |blanks| ==> IsSpace(blanks[i])
    requires sign in {"", "+", "-"} && number != "" && Hex.IsDigit(number[0])
    ensures var text := blanks + (sign + number);
      Numeral(text) == Hex.DigitPrefix(SkipPrefix(number)) && (Negated(text) <==> sign == "-")
  {
    SkipBlanks(blanks, sign + number);
    if sign == "" {
      assert sign + number == number;
    } else {
      assert (sign + number)[1..] == number;
    }
  }

  lemma NumberEnds(prefix: string, digits: string, rest: string)
    requires prefix in {"", "0x", "0X"} && digits != "" && Hex.AllDigits(digits)
    ensures Hex.DigitPrefix(SkipPrefix(prefix + (digits + rest))) == digits <==> EndsNumeral(prefix, digits, rest)
  {
    if LooksPrefixed(prefix, digits, rest) {
      PrefixTaken(rest);
    } else {
      PrefixSkipped(prefix, digits, rest);
      if rest != "" && Hex.IsDigit(rest[0]) {
        Hex.PrefixGoesOn(digits, rest);
      } else {
        Hex.PrefixStops(digits, rest);
      }
    }
  }

  /** A lone 0 before `x` and a digit: the prefix is skipped and the numeral begins with that digit. */
  lemma PrefixTaken(rest: string)
    requires LooksPrefixed("", "0", rest)
    ensures Hex.DigitPrefix(SkipPrefix("" + ("0" + rest))) == "0"
       <==> rest[1] == '0' && (|rest| == 2 || !Hex.IsDigit(rest[2]))
  {
    var text := "" + ("0" + rest);
    assert text[2..] == rest[1..];
    assert rest[1..][1..] == rest[2..];
    assert Hex.DigitPrefix(rest[1..]) == [rest[1]] + Hex.DigitPrefix(rest[2..]);
    if |rest| > 2 && Hex.IsDigit(rest[2]) { assert Hex.DigitPrefix(rest[2..]) != ""; }
  }

  lemma PrefixSkipped(prefix: string, digits: string, rest: string)
    requires prefix in {"", "0x", "0X"} && digits != "" && Hex.AllDigits(digits)
    requires !LooksPrefixed(prefix, digits, rest)
    ensures SkipPrefix(prefix + (digits + rest)) == digits + rest
  {
    var tail := digits + rest;
    assert Hex.IsDigit(digits[0]);
    if prefix == "" {
      assert prefix + tail == tail;
      if |digits| > 1 { assert Hex.IsDigit(digits[1]); }
    } else {
      assert (prefix + tail)[2..] == tail;
    }
  }
}
