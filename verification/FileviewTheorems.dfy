/** What holds of the viewer on the device, over every key sequence. */
module FileviewTheorems {
  import opened Words
  import opened Dram
  import opened LineEditor
  import opened Fileview
  import Hex
  import RowPrinter

  // ----- bounds -------------------------------------------------------------

  /** An increment is 16^e with 2 <= e <= 9, that is 2^(8+4k) with 0 <= k <= 7. */
  lemma IncrementShape(p: int)
    requires IsIncrement(p)
    ensures exists e: nat :: 2 <= e <= 9 && p == Pow16(e)
  {
    var e := Exponent(p);
    if e < 2 { Pow16Grows(e, 1); }
    if e > 9 { Pow16Grows(10, e); }
    assert Pow16(1) == 16 && Pow16(2) == 0x100 && Pow16(10) == 0x100 * Pow16(8) && Pow16(8) == 0x1_0000_0000 by {
      assert Pow16(4) == 0x1_0000;
    }
  }

  lemma {:induction false} Exponent(p: int) returns (e: nat)
    requires PowerOf16(p)
    ensures p == Pow16(e)
  {
    if p == 1 {
      e := 0;
    } else {
      e := Exponent(p / 16);
      e := e + 1;
    }
  }

  lemma CommandInRange(posmax: nat, s: State, code: Key)
    requires StateOk(posmax, s)
    ensures var t := Command(posmax, s, code);
      && -INCMAX <= t.position <= posmax + INCMAX
      && 16 <= t.pageincr <= 16 * INCMAX
  {
    var t := Command(posmax, s, code);
    assert t.position in [0, posmax, s.position, s.position + 16, s.position - 16,
                          s.position + s.pageincr, s.position - s.pageincr];
    assert t.pageincr == s.pageincr || t.pageincr == s.pageincr / 16 || t.pageincr == s.pageincr * 16;
  }

  /** Before its bounds are restored, no position or increment leaves the 64-bit range, and no increment becomes 0. */
  lemma NoOverflow(filesize: nat, keys: seq<Key>, n: nat, code: Key)
    requires n <= |keys| && filesize + INCMAX < 0x8000_0000_0000_0000
    ensures var t := Command(PosMax(filesize), Run(SetupFor(filesize), keys, n), code);
      && -0x8000_0000_0000_0000 <= t.position < 0x8000_0000_0000_0000
      && 0 < t.pageincr < 0x8000_0000_0000_0000
  {
    PosMaxInside(filesize);
    SetupForOk(filesize);
    RunStateOk(SetupFor(filesize), keys, n);
    CommandInRange(PosMax(filesize), Run(SetupFor(filesize), keys, n), code);
  }

  /** `posmax` is the least non-negative multiple of 16 whose window reaches the end of the file. */
  lemma PosMaxLeast(filesize: nat, m: nat)
    requires m % 16 == 0
    ensures m + BUFSIZE >= filesize <==> m >= PosMax(filesize)
  {
    PosMaxInside(filesize);
    AlignBounds(filesize - 241, 16);
    if m < PosMax(filesize) {
      assert m + 16 <= PosMax(filesize) by { if m + 16 > PosMax(filesize) { MultiplesApart(m, PosMax(filesize), 16); } }
    }
  }

  /** Putting the window at the paragraph of `a` keeps `a` visible, also where `posmax` pulls it back. */
  lemma AddressVisible(filesize: nat, a: nat)
    requires a < filesize
    ensures var p := ClampPosition(PosMax(filesize), Align(a, 16)); p <= a < p + BUFSIZE
  {
    AlignBounds(a, 16);
    PosMaxInside(filesize);
    PosMaxLeast(filesize, PosMax(filesize));
  }

  /** Every seek the viewer issues is accepted and answers the position it asked for. */
  lemma SeekAccepted(d: Device, pos: nat, keys: seq<Key>, n: nat)
    requires n <= |keys|
    ensures var p := Run(SetupFor(d.size), keys, n).position;
      0 <= p && SeekOutcome(d, pos, p, 0) == Outcome(p, p, [])
  {
    PosMaxInside(d.size);
    SetupForOk(d.size);
    RunStateOk(SetupFor(d.size), keys, n);
  }

  // ----- the keys -----------------------------------------------------------

  /** The code of a key that the terminal sends as escape, bracket and one character more. */
  function Sequence(last: char): int { 0x1B + 0x100 * '[' as int + 0x1_0000 * last as int }

  lemma KeyCodes()
    ensures KB_LNUP == Sequence('A') && KB_LNDN == Sequence('B') && KB_RGHT == Sequence('C') && KB_LEFT == Sequence('D')
    ensures KB_HOME == Sequence('1') && KB_END == Sequence('4') && KB_PGUP == Sequence('5') && KB_PGDN == Sequence('6')
    ensures KB_QUIT == 0x1B && KB_SEEK == '\n' as int
  {
  }

  /** The first screen is drawn at the start of the file, in bytes, with pages of 256. */
  lemma {:induction false} FirstFrame(filesize: nat, keys: seq<Key>, n: nat)
    requires n <= |keys|
    ensures var states := Draws(SetupFor(filesize), keys, n);
      |states| > 0 && states[0] == State(0, 256, 1, Viewing)
  {
    if n > 0 { FirstFrame(filesize, keys, n - 1); }
  }

  /** The viewer after the first `n` keys. */
  function After(filesize: nat, keys: seq<Key>, n: nat): State
    requires n <= |keys|
  {
    Run(SetupFor(filesize), keys, n)
  }

  /** A proper state takes one command key. */
  lemma OneKey(filesize: nat, keys: seq<Key>, n: nat)
    requires n < |keys| && After(filesize, keys, n).mode.Viewing? && keys[n] != KB_SEEK
    ensures StateOk(PosMax(filesize), After(filesize, keys, n))
    ensures var s := After(filesize, keys, n);
      After(filesize, keys, n + 1) == Settle(PosMax(filesize), Command(PosMax(filesize), s, keys[n]))
    ensures ClampIncrement(After(filesize, keys, n).pageincr) == After(filesize, keys, n).pageincr
    ensures 0 <= PosMax(filesize)
  {
    PosMaxInside(filesize);
    SetupForOk(filesize);
    RunStateOk(SetupFor(filesize), keys, n);
    IncrementSteps(After(filesize, keys, n).pageincr);
  }

  /** Home moves to the start of the file: byte 0 is the first in view. */
  lemma HomeKey(filesize: nat, keys: seq<Key>, n: nat)
    requires n < |keys| && After(filesize, keys, n).mode.Viewing?
    requires keys[n] in {'H' as nat, 'h' as nat, KB_HOME}
    ensures After(filesize, keys, n + 1) == After(filesize, keys, n).(position := 0)
  {
    OneKey(filesize, keys, n);
  }

  /** End moves to the least multiple of 16 whose window reaches the end: the last byte is in view. */
  lemma EndKey(filesize: nat, keys: seq<Key>, n: nat)
    requires n < |keys| && After(filesize, keys, n).mode.Viewing?
    requires keys[n] in {'E' as nat, 'e' as nat, KB_END}
    ensures var p := After(filesize, keys, n + 1).position;
      && After(filesize, keys, n + 1) == After(filesize, keys, n).(position := p)
      && 0 <= p && p % 16 == 0 && p + 256 >= filesize
      && (forall m: nat :: m % 16 == 0 && m + 256 >= filesize ==> p <= m)
      && (filesize > 0 ==> p <= filesize - 1 < p + 256)
  {
    OneKey(filesize, keys, n);
    PosMaxInside(filesize);
    PosMaxLeast(filesize, PosMax(filesize));
    forall m: nat | m % 16 == 0 && m + 256 >= filesize ensures PosMax(filesize) <= m {
      PosMaxLeast(filesize, m);
    }
  }

  /** Each format letter, in either case, chooses the number of bytes that a number on the screen has. */
  lemma FormatKey(filesize: nat, keys: seq<Key>, n: nat, i: nat)
    requires n < |keys| && After(filesize, keys, n).mode.Viewing?
    requires i < 5 && keys[n] in {"BWDQO"[i] as nat, "bwdqo"[i] as nat}
    ensures After(filesize, keys, n + 1) == After(filesize, keys, n).(format := [1, 2, 4, 8, 16][i])
  {
    OneKey(filesize, keys, n);
  }

  /** What the keys that move the window or change the page do, bounds included. */
  lemma MoveKey(filesize: nat, keys: seq<Key>, n: nat)
    requires n < |keys| && After(filesize, keys, n).mode.Viewing?
    ensures var s, t, key := After(filesize, keys, n), After(filesize, keys, n + 1), keys[n];
      && (key == KB_LNDN ==> t == s.(position := Min(s.position + 16, PosMax(filesize))))
      && (key == KB_LNUP ==> t == s.(position := if s.position < 16 then 0 else s.position - 16))
      && (key == KB_PGDN ==> t == s.(position := Min(s.position + s.pageincr, PosMax(filesize))))
      && (key == KB_PGUP ==> t == s.(position := if s.position < s.pageincr then 0 else s.position - s.pageincr))
      && (key == KB_LEFT ==> t == s.(pageincr := Min(s.pageincr * 16, 0x10_0000_0000)))
      && (key == KB_RGHT ==> t == s.(pageincr := if s.pageincr / 16 < 0x100 then 0x100 else s.pageincr / 16))
  {
    if keys[n] != KB_SEEK { OneKey(filesize, keys, n); }
  }

  /** Escape ends the viewer: nothing is drawn any more. */
  lemma QuitKey(filesize: nat, keys: seq<Key>, n: nat)
    requires n < |keys| && After(filesize, keys, n).mode.Viewing? && keys[n] == KB_QUIT
    ensures After(filesize, keys, |keys|).mode.Done?
    ensures Draws(SetupFor(filesize), keys, |keys|) == Draws(SetupFor(filesize), keys, n)
  {
    DoneIsFinal(SetupFor(filesize), keys, n + 1, |keys|);
  }

  /** The keys that mean something to the viewer. */
  predicate IsCommand(key: Key) {
    || (exists i :: 0 <= i < 14 && key == "HhEeBbWwDdQqOo"[i] as nat)
    || key in {KB_QUIT, KB_SEEK, KB_HOME, KB_END, KB_LNUP, KB_LNDN, KB_PGUP, KB_PGDN, KB_LEFT, KB_RGHT}
  }

  /** Any other key changes nothing, and the same screen is drawn again. */
  lemma OtherKey(filesize: nat, keys: seq<Key>, n: nat)
    requires n < |keys| && After(filesize, keys, n).mode.Viewing? && !IsCommand(keys[n])
    ensures After(filesize, keys, n + 1) == After(filesize, keys, n)
    ensures Draws(SetupFor(filesize), keys, n + 1)
         == Draws(SetupFor(filesize), keys, n) + [After(filesize, keys, n)]
  {
    NotCommand(keys[n]);
    OneKey(filesize, keys, n);
  }

  lemma NotCommand(key: Key)
    requires !IsCommand(key)
    ensures key !in {0x48, 0x68, 0x45, 0x65, 0x42, 0x62, 0x57, 0x77, 0x44, 0x64, 0x51, 0x71, 0x4F, 0x6F}
  {
    var letters := "HhEeBbWwDdQqOo";
    assert letters[0] as nat == 0x48 && letters[1] as nat == 0x68 && letters[2] as nat == 0x45;
    assert letters[3] as nat == 0x65 && letters[4] as nat == 0x42 && letters[5] as nat == 0x62;
    assert letters[6] as nat == 0x57 && letters[7] as nat == 0x77 && letters[8] as nat == 0x44;
    assert letters[9] as nat == 0x64 && letters[10] as nat == 0x51 && letters[11] as nat == 0x71;
    assert letters[12] as nat == 0x4F && letters[13] as nat == 0x6F;
  }

  // ----- the seek line ------------------------------------------------------

  /** The keys from `start` on spell `text`. */
  ghost predicate Spell(keys: seq<Key>, start: nat, text: string) {
    start + |text| <= |keys| && forall i :: 0 <= i < |text| ==> keys[start + i] == text[i] as nat
  }

  lemma {:induction false} TypedText(keys: seq<Key>, start: nat, text: string, m: nat)
    requires Spell(keys, start, text) && AllPrintable(text) && m <= |text| <= LINEMAX
    ensures Edit(keys, start, start + m) == if m < LINEMAX then Typing(text[..m]) else Entered(text[..m])
  {
    if m > 0 {
      TypedText(keys, start, text, m - 1);
      assert keys[start + (m - 1)] == text[m - 1] as nat && Printable(text[m - 1] as nat);
      assert text[..m] == text[..m - 1] + [text[m - 1]];
    }
  }

  /** The keys from `n` on are a whole seek: the opening key, the text, and the newline that a full
      line does without. */
  ghost predicate IsSeek(keys: seq<Key>, n: nat, text: string, end: nat) {
    && end == n + 1 + |text| + (if |text| < LINEMAX then 1 else 0) <= |keys|
    && keys[n] == KB_SEEK && Spell(keys, n + 1, text)
    && (|text| < LINEMAX ==> keys[end - 1] == KB_SEEK)
  }

  lemma SeekEnters(keys: seq<Key>, start: nat, text: string, end: nat)
    requires start > 0 && IsSeek(keys, start - 1, text, end) && AllPrintable(text) && |text| <= LINEMAX
    ensures Edit(keys, start, end) == Entered(text)
    ensures forall m :: start <= m < end ==> Edit(keys, start, m).Typing?
  {
    assert text[..|text|] == text;
    TypedText(keys, start, text, |text|);
    forall m | start <= m < end ensures Edit(keys, start, m).Typing? {
      TypedText(keys, start, text, m - start);
    }
  }

  /** Typing a printable text as a seek line moves the window to what the text means. */
  lemma SeekLine(v: Setup, keys: seq<Key>, n: nat, text: string, end: nat)
    requires IsSeek(keys, n, text, end) && AllPrintable(text) && |text| <= LINEMAX
    requires Run(v, keys, n).mode.Viewing?
    ensures Run(v, keys, end) == Settle(v.posmax, Run(v, keys, n).(position := v.parse(text)))
  {
    SeekEnters(keys, n + 1, text, end);
    assert Run(v, keys, n + 1) == Run(v, keys, n).(mode := Editing(""));
    LineIsOneStep(v, keys, n + 1, end);
  }

  /** Seeking to any address inside the file makes it visible, however the line came about: with blanks, a
      plus sign or a prefix, in digits of either case, with text behind them, and with characters erased. */
  lemma SeekShowsAddress(filesize: nat, keys: seq<Key>, start: nat, end: nat, text: string)
    requires start <= end <= |keys| && Run(SetupFor(filesize), keys, start).mode == Editing("")
    requires Edit(keys, start, end) == Entered(text) && forall m :: start <= m < end ==> Edit(keys, start, m).Typing?
    requires !Negated(text) && Hex.ValueOf(Numeral(text)) < filesize
    ensures var s := Run(SetupFor(filesize), keys, end);
      s.mode.Viewing? && s.position <= Hex.ValueOf(Numeral(text)) < s.position + BUFSIZE
  {
    LineIsOneStep(SetupFor(filesize), keys, start, end);
    EditBounds(keys, start, end);
    SeekPositionBounds(text);
    AddressVisible(filesize, Hex.ValueOf(Numeral(text)));
  }

  /** In particular when plain digits are typed from the viewer and nothing is erased. */
  lemma DigitsShowAddress(filesize: nat, keys: seq<Key>, n: nat, digits: string, end: nat)
    requires IsSeek(keys, n, digits, end) && Run(SetupFor(filesize), keys, n).mode.Viewing?
    requires digits != "" && Hex.AllDigits(digits) && |digits| <= LINEMAX
    requires Hex.ValueOf(digits) < filesize
    ensures var s := Run(SetupFor(filesize), keys, end);
      s.mode.Viewing? && s.position <= Hex.ValueOf(digits) < s.position + BUFSIZE
  {
    assert AllPrintable(digits) by {
      forall i | 0 <= i < |digits| ensures Printable(digits[i] as nat) { assert Hex.IsDigit(digits[i]); }
    }
    SeekLine(SetupFor(filesize), keys, n, digits, end);
    DigitsMeanValue(digits);
    AddressVisible(filesize, Hex.ValueOf(digits));
  }

  /** Escape inside the seek line is not a cancel: whatever was typed, the window moves to the start. */
  lemma EscapeGoesToStart(filesize: nat, keys: seq<Key>, n: nat)
    requires n < |keys| && keys[n] == KB_QUIT && Run(SetupFor(filesize), keys, n).mode.Editing?
    ensures var s := Run(SetupFor(filesize), keys, n + 1); s.mode.Viewing? && s.position == 0
  {
    assert SeekPosition("") == 0 by { assert Numeral("") == ""; }
    EscapeEnters(SetupFor(filesize), keys, n);
  }

  lemma EscapeEnters(v: Setup, keys: seq<Key>, n: nat)
    requires n < |keys| && keys[n] == KB_QUIT && Run(v, keys, n).mode.Editing?
    ensures var s := Run(v, keys, n + 1); s.mode.Viewing? && s.position == ClampPosition(v.posmax, v.parse(""))
  {
  }

  // ----- paging -------------------------------------------------------------

  /** `s` after some page-downs of the smallest size. */
  function Paged(posmax: nat, s: State, pages: nat): State {
    s.(position := Min(s.position + BUFSIZE * pages, posmax))
  }

  lemma PagedStep(v: Setup, s: State, pages: nat)
    requires s.mode.Viewing? && s.pageincr == INCMIN && 0 <= s.position <= v.posmax
    ensures Step(v, Paged(v.posmax, s, pages), KB_PGDN) == Paged(v.posmax, s, pages + 1)
  {
    var p := Paged(v.posmax, s, pages);
    assert Command(v.posmax, p, KB_PGDN) == p.(position := p.position + BUFSIZE);
  }

  /** A stretch of page-downs at the smallest increment. */
  lemma {:induction false} PagesAdvance(v: Setup, keys: seq<Key>, n: nat, end: nat)
    requires n <= end <= |keys| && forall i :: n <= i < end ==> keys[i] == KB_PGDN
    requires Run(v, keys, n).mode.Viewing? && Run(v, keys, n).pageincr == INCMIN
    requires 0 <= Run(v, keys, n).position <= v.posmax
    ensures Run(v, keys, end) == Paged(v.posmax, Run(v, keys, n), end - n)
    decreases end
  {
    var s := Run(v, keys, n);
    if n == end {
      assert Paged(v.posmax, s, 0) == s;
    } else {
      PagesAdvance(v, keys, n, end - 1);
      PagedStep(v, s, end - 1 - n);
      assert keys[end - 1] == KB_PGDN;
    }
  }

  lemma PagesCover(v: Setup, filesize: nat, keys: seq<Key>, n: nat, end: nat, a: nat)
    requires n <= end <= |keys| && forall i :: n <= i < end ==> keys[i] == KB_PGDN
    requires var s := Run(v, keys, n); s.mode.Viewing? && s.pageincr == INCMIN && s.position == 0
    requires a < filesize <= v.posmax + BUFSIZE && end - n == a / BUFSIZE
    ensures var p := Run(v, keys, end).position; p <= a < p + BUFSIZE
  {
    PagesAdvance(v, keys, n, end);
    Nearest(v.posmax, filesize, a, end - n);
  }

  /** From the start at the smallest increment, paging down brings every byte of the file into view. */
  lemma PageDownsCover(filesize: nat, keys: seq<Key>, n: nat, end: nat, a: nat)
    requires n <= end <= |keys| && forall i :: n <= i < end ==> keys[i] == KB_PGDN
    requires var s := Run(SetupFor(filesize), keys, n); s.mode.Viewing? && s.pageincr == INCMIN && s.position == 0
    requires a < filesize && end - n == a / BUFSIZE
    ensures var p := Run(SetupFor(filesize), keys, end).position; p <= a < p + BUFSIZE
  {
    PosMaxInside(filesize);
    PosMaxLeast(filesize, PosMax(filesize));
    PagesCover(SetupFor(filesize), filesize, keys, n, end, a);
  }

  lemma Nearest(posmax: nat, filesize: nat, a: nat, pages: nat)
    requires filesize <= posmax + BUFSIZE && a < filesize && pages == a / BUFSIZE
    ensures var p := Min(BUFSIZE * pages, posmax); p <= a < p + BUFSIZE
  {
  }

  // ----- what the commands undo ----------------------------------------------

  /** Paging down and up again comes back exactly when the first page fits, or from the very start. */
  lemma PageUpUndoesPageDown(v: Setup, s: State)
    requires StateOk(v.posmax, s) && s.mode.Viewing?
    ensures Step(v, Step(v, s, KB_PGDN), KB_PGUP) == s <==> s.position + s.pageincr <= v.posmax || s.position == 0
  {
    IncrementSteps(s.pageincr);
    assert Step(v, s, KB_PGDN) == s.(position := Min(s.position + s.pageincr, v.posmax));
  }

  /** The same for lines. */
  lemma LineUpUndoesLineDown(v: Setup, s: State)
    requires StateOk(v.posmax, s) && s.mode.Viewing?
    ensures Step(v, Step(v, s, KB_LNDN), KB_LNUP) == s <==> s.position + 16 <= v.posmax || s.position == 0
  {
    IncrementSteps(s.pageincr);
    assert Step(v, s, KB_LNDN) == s.(position := Min(s.position + 16, v.posmax));
  }

  /** The two increment keys undo each other exactly away from the bound the first one runs into. */
  lemma IncrementKeysUndo(v: Setup, s: State)
    requires StateOk(v.posmax, s) && s.mode.Viewing?
    ensures Step(v, Step(v, s, KB_LEFT), KB_RGHT) == s <==> s.pageincr < INCMAX
    ensures Step(v, Step(v, s, KB_RGHT), KB_LEFT) == s <==> s.pageincr > INCMIN
  {
    IncrementSteps(s.pageincr);
    NextIncrement(s.pageincr);
    assert Step(v, s, KB_LEFT) == s.(pageincr := ClampIncrement(s.pageincr * 16));
    assert Step(v, s, KB_RGHT) == s.(pageincr := ClampIncrement(s.pageincr / 16));
  }

  lemma NextIncrement(p: int)
    requires IsIncrement(p)
    ensures p < INCMAX ==> ClampIncrement(p * 16) == p * 16
    ensures p > INCMIN ==> ClampIncrement(p / 16) == p / 16
    ensures p == INCMAX ==> ClampIncrement(p * 16) == p
    ensures p == INCMIN ==> ClampIncrement(p / 16) == p
  {
    var e := Exponent(p);
    if p < INCMAX && e >= 9 { Pow16Grows(9, e); }
    if p > INCMIN && e <= 2 { Pow16Grows(e, 2); }
    if p > INCMIN { Pow16Grows(3, e); }
    if p < INCMAX { Pow16Grows(e, 8); }
    assert Pow16(2) == 0x100 && Pow16(3) == 0x1000;
    assert Pow16(4) == 0x1_0000 && Pow16(8) == 0x1_0000_0000 && Pow16(9) == INCMAX;
  }

  /** The format letters change the format and nothing else: the same window is drawn again. */
  lemma FormatKeyKeepsWindow(v: Setup, s: State, key: Key)
    requires StateOk(v.posmax, s) && s.mode.Viewing?
    requires Letter(key, KEY_B) || Letter(key, KEY_W) || Letter(key, KEY_D) || Letter(key, KEY_Q) || Letter(key, KEY_O)
    ensures Step(v, s, key) == s.(format := Step(v, s, key).format) && RowPrinter.IsFormat(Step(v, s, key).format)
  {
    IncrementSteps(s.pageincr);
  }

  // ----- the screen ---------------------------------------------------------

  lemma {:induction false} DrawsAreRuns(v: Setup, keys: seq<Key>, n: nat, k: nat)
    requires SetupOk(v) && n <= |keys| && k < |Draws(v, keys, n)|
    ensures StateOk(v.posmax, Draws(v, keys, n)[k]) && Draws(v, keys, n)[k].mode.Viewing?
  {
    if n == 0 {
      BoundsArePowers();
    } else if k < |Draws(v, keys, n - 1)| {
      DrawsAreRuns(v, keys, n - 1, k);
    } else {
      RunStateOk(v, keys, n);
    }
  }

  /** The states of the frames that a session draws. */
  ghost function Drawn(d: Device, keys: seq<Key>): seq<State>
    requires d.Valid()
  {
    Draws(SetupFor(d.size), keys, |keys|)
  }

  /** The bytes that arrived for frame `k` of a session that began with user copy `call`. */
  ghost function ShownIn(d: Device, copies: nat -> nat, call: nat, keys: seq<Key>, k: nat): (shown: nat)
    requires d.Valid() && k < |Drawn(d, keys)|
    ensures shown <= BUFSIZE
  {
    Shown(d, copies, Drawn(d, keys)[k].position, CallAt(Follow(d, copies), call, Drawn(d, keys), k))
  }

  /** Every frame shows the window of a proper state. */
  lemma FrameShows(d: Device, copies: nat -> nat, call: nat, keys: seq<Key>, frames: seq<seq<string>>, k: nat)
    requires d.Valid() && Caught(d, copies, call, keys, |keys|, frames) && k < |frames|
    ensures var s := Drawn(d, keys)[k];
      && StateOk(PosMax(d.size), s) && s.position <= d.size
      && frames[k] == Frame(s.format, s.position, Window(d, s.position, ShownIn(d, copies, call, keys, k)))
  {
    SetupForOk(d.size);
    DrawsAreRuns(SetupFor(d.size), keys, |keys|, k);
    PosMaxInside(d.size);
    assert Shows(d, copies, CallAt(Follow(d, copies), call, Drawn(d, keys), k), Drawn(d, keys)[k], frames[k]);
  }

  lemma ScreenParses(format: nat, location: nat, window: seq<byte>, i: nat)
    requires RowPrinter.IsFormat(format) && |window| == BUFSIZE && i < BUFHIGH
    ensures var row := Frame(format, location, window)[i];
      && |row| >= 78 && RowPrinter.ParseRow(format, row) == (location + 16 * i, RowBytes(window, i))
      && RowPrinter.ShowsCharacters(row, RowBytes(window, i))
  {
    var bytes, row := RowBytes(window, i), Frame(format, location, window)[i];
    RowPrinter.RowText(format, location + 16 * i, bytes, row);
  }

  /** The bytes are flat memory from `a` on, with 0xFF from `end` on. */
  ghost predicate IsMemory(d: Device, a: int, bs: seq<byte>, end: int) {
    forall j :: 0 <= j < |bs| ==> bs[j] == if a + j < end then d.mem(a + j) else 0xFF
  }

  /** Also when copies fault, a row holds flat memory as far as bytes arrived, and 0xFF beyond. */
  lemma RowIsMemory(d: Device, p: nat, shown: nat, i: nat)
    requires d.Valid() && d.Top() <= 0x8000_0000 * d.page
    requires p <= d.size && shown <= WindowLength(d, p) && i < BUFHIGH
    ensures IsMemory(d, p + 16 * i, RowBytes(Window(d, p, shown), i), p + shown)
  {
    var row := RowBytes(Window(d, p, shown), i);
    ViewIsFlat(d, p, shown);
    forall j | 0 <= j < 16 ensures row[j] == if 16 * i + j < shown then d.mem(p + 16 * i + j) else 0xFF {
      if 16 * i + j < shown { assert d.View(p, shown)[16 * i + j] == d.mem(p + (16 * i + j)); }
    }
  }

  /** Row `i` of a frame, read back in the frame's own format: its address, and flat memory there, which is also
      what its character column shows. */
  ghost predicate ReadsAsMemory(d: Device, s: State, row: string, i: nat, end: int)
    requires s.format > 0 && |row| >= 65
  {
    var (a, bs) := RowPrinter.ParseRow(s.format, row);
    && a == s.position + 16 * i && |bs| == 16 && IsMemory(d, a, bs, end)
    && RowPrinter.ShowsCharacters(row, bs)
  }

  lemma ScreenReads(d: Device, s: State, window: seq<byte>, i: nat, end: int)
    requires |window| == BUFSIZE && RowPrinter.IsFormat(s.format) && 0 <= s.position && i < BUFHIGH
    requires IsMemory(d, s.position + 16 * i, RowBytes(window, i), end)
    ensures var row := Frame(s.format, s.position, window)[i];
      |row| >= 78 && ReadsAsMemory(d, s, row, i, end)
  {
    ScreenParses(s.format, s.position, window, i);
  }

  lemma ShownScreenReads(d: Device, s: State, shown: nat, i: nat)
    requires d.Valid() && d.Top() <= 0x8000_0000 * d.page && i < BUFHIGH
    requires 0 <= s.position <= d.size && RowPrinter.IsFormat(s.format) && shown <= WindowLength(d, s.position)
    ensures var row := Frame(s.format, s.position, Window(d, s.position, shown))[i];
      |row| >= 78 && ReadsAsMemory(d, s, row, i, s.position + shown)
  {
    RowIsMemory(d, s.position, shown, i);
    ScreenReads(d, s, Window(d, s.position, shown), i, s.position + shown);
  }

  /** A window that is not full of bytes ends where the device ends. */
  lemma WindowEnd(d: Device, p: nat)
    requires d.Valid() && p <= PosMax(d.size)
    ensures p + WindowLength(d, p) <= d.Top()
    ensures WindowLength(d, p) == BUFSIZE || p + WindowLength(d, p) == d.Top()
  {
    PosMaxInside(d.size);
    if p >= d.size { MultiplesApart(0, d.Top(), d.page); }
  }

  /** Within the rows of a window, the end of a full window and the end of the device are the same. */
  lemma EndIsTop(d: Device, p: nat, end: nat, top: nat, i: nat, bs: seq<byte>)
    requires end <= top && (end == p + BUFSIZE || end == top) && i < BUFHIGH && |bs| == 16
    requires IsMemory(d, p + 16 * i, bs, end)
    ensures IsMemory(d, p + 16 * i, bs, top)
  {
  }

  lemma FullScreenReads(d: Device, s: State, i: nat)
    requires d.Valid() && d.Top() <= 0x8000_0000 * d.page && i < BUFHIGH && StateOk(PosMax(d.size), s)
    ensures var row := Frame(s.format, s.position, Window(d, s.position, WindowLength(d, s.position)))[i];
      |row| >= 78 && ReadsAsMemory(d, s, row, i, d.Top())
  {
    var p, n := s.position, WindowLength(d, s.position);
    PosMaxInside(d.size);
    RowIsMemory(d, p, n, i);
    WindowEnd(d, p);
    EndIsTop(d, p, p + n, d.Top(), i, RowBytes(Window(d, p, n), i));
    ScreenReads(d, s, Window(d, p, n), i, d.Top());
  }

  /** Whether or not user copies fault, every row of every frame reads back as flat memory exactly as far as
      bytes arrived for that frame, and as the erasing pattern from there on. */
  lemma ScreenNeverLies(d: Device, copies: nat -> nat, call: nat, keys: seq<Key>, frames: seq<seq<string>>,
                        k: nat, i: nat)
    requires d.Valid() && d.Top() <= 0x8000_0000 * d.page
    requires Caught(d, copies, call, keys, |keys|, frames) && k < |frames| && i < BUFHIGH
    ensures |frames[k]| == BUFHIGH && |frames[k][i]| >= 78
    ensures var s := Drawn(d, keys)[k];
      s.format > 0 && ReadsAsMemory(d, s, frames[k][i], i, s.position + ShownIn(d, copies, call, keys, k))
  {
    var s := Drawn(d, keys)[k];
    FrameShows(d, copies, call, keys, frames, k);
    DatalenExact(d, copies, s.position, CallAt(Follow(d, copies), call, Drawn(d, keys), k));
    ShownScreenReads(d, s, ShownIn(d, copies, call, keys, k), i);
  }

  /** No user copy falls short in the fill of frame `k`. */
  ghost predicate FrameWhole(d: Device, copies: nat -> nat, call: nat, keys: seq<Key>, k: nat)
    requires d.Valid() && k < |Drawn(d, keys)|
  {
    Whole(d, copies, Drawn(d, keys)[k].position, CallAt(Follow(d, copies), call, Drawn(d, keys), k))
  }

  lemma FrameIsFull(d: Device, copies: nat -> nat, call: nat, keys: seq<Key>, frames: seq<seq<string>>, k: nat)
    requires d.Valid() && Caught(d, copies, call, keys, |keys|, frames) && k < |frames|
    requires FrameWhole(d, copies, call, keys, k)
    ensures var s := Drawn(d, keys)[k];
      && StateOk(PosMax(d.size), s)
      && frames[k] == Frame(s.format, s.position, Window(d, s.position, WindowLength(d, s.position)))
  {
    FrameShows(d, copies, call, keys, frames, k);
    FullIffWhole(d, copies, Drawn(d, keys)[k].position, CallAt(Follow(d, copies), call, Drawn(d, keys), k));
  }

  /** End to end: after any keys, every row of a frame whose own copies were whole, in any format, reads back
      as the flat memory at the address the row is labelled with, up to the page that holds the last byte. */
  lemma ScreenIsMemory(d: Device, copies: nat -> nat, call: nat, keys: seq<Key>, frames: seq<seq<string>>,
                       k: nat, i: nat)
    requires d.Valid() && d.Top() <= 0x8000_0000 * d.page
    requires Caught(d, copies, call, keys, |keys|, frames) && k < |frames| && i < BUFHIGH
    requires FrameWhole(d, copies, call, keys, k)
    ensures |frames[k]| == BUFHIGH && |frames[k][i]| >= 78
    ensures var s := Drawn(d, keys)[k]; s.format > 0 && ReadsAsMemory(d, s, frames[k][i], i, d.Top())
  {
    FrameIsFull(d, copies, call, keys, frames, k);
    FullScreenReads(d, Drawn(d, keys)[k], i);
  }

  /** The rows of all frames of a session, each read back. */
  ghost predicate FramesReadBack(d: Device, copies: nat -> nat, call: nat, keys: seq<Key>, frames: seq<seq<string>>)
    requires d.Valid()
  {
    && |frames| == |Drawn(d, keys)|
    && forall k :: 0 <= k < |frames| ==> FrameReadsBack(d, copies, call, keys, k, frames[k])
  }

  ghost predicate FrameReadsBack(d: Device, copies: nat -> nat, call: nat, keys: seq<Key>, k: nat, frame: seq<string>)
    requires d.Valid() && k < |Drawn(d, keys)|
  {
    var s := Drawn(d, keys)[k];
    && s.format > 0 && |frame| == BUFHIGH
    && forall i :: 0 <= i < BUFHIGH ==>
      && |frame[i]| >= 78
      && ReadsAsMemory(d, s, frame[i], i, s.position + ShownIn(d, copies, call, keys, k))
      && (FrameWhole(d, copies, call, keys, k) ==> ReadsAsMemory(d, s, frame[i], i, d.Top()))
  }

  lemma FrameReads(d: Device, copies: nat -> nat, call: nat, keys: seq<Key>, frames: seq<seq<string>>, k: nat)
    requires d.Valid() && d.Top() <= 0x8000_0000 * d.page
    requires Caught(d, copies, call, keys, |keys|, frames) && k < |frames|
    ensures FrameReadsBack(d, copies, call, keys, k, frames[k])
  {
    forall i | 0 <= i < BUFHIGH
      ensures |frames[k]| == BUFHIGH && |frames[k][i]| >= 78 && Drawn(d, keys)[k].format > 0
      ensures var s := Drawn(d, keys)[k];
        ReadsAsMemory(d, s, frames[k][i], i, s.position + ShownIn(d, copies, call, keys, k))
      ensures FrameWhole(d, copies, call, keys, k) ==> ReadsAsMemory(d, Drawn(d, keys)[k], frames[k][i], i, d.Top())
    {
      ScreenNeverLies(d, copies, call, keys, frames, k, i);
      if FrameWhole(d, copies, call, keys, k) { ScreenIsMemory(d, copies, call, keys, frames, k, i); }
    }
    assert |frames[k][0]| >= 78;
  }

  /** The program itself: on any keys and any user copies it draws one frame for each drawing state, and every
      row of every frame reads back as flat memory as far as bytes arrived. */
  method ViewMemory(file: DramFile, keys: seq<Key>) returns (frames: seq<seq<string>>)
    requires file.Valid() && file.d.size <= SIZEMAX && file.d.Top() <= 0x8000_0000 * file.d.page
    modifies file
    ensures file.Valid()
    ensures FramesReadBack(file.d, file.copies, old(file.calls), keys, frames)
  {
    ghost var call := file.calls;
    frames := Session(file, keys);
    forall k | 0 <= k < |frames| ensures FrameReadsBack(file.d, file.copies, call, keys, k, frames[k]) {
      FrameReads(file.d, file.copies, call, keys, frames, k);
    }
  }
}
