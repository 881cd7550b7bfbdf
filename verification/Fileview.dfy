/** The interactive viewer: its key automaton, its window of the file, and the program that runs both. */
module Fileview {
  import opened Words
  import opened Dram
  import opened LineEditor
  import RowPrinter

  const BUFSIZE := 256
  const BUFHIGH := 16
  const INCMIN := 0x100
  const INCMAX := 0x10_0000_0000
  /** The largest file whose row labels still leave room for the NUL of `outline`. */
  const SIZEMAX := 0x100_0000_0000_0000

  const KB_HOME := 0x315B1B
  const KB_LNUP := 0x415B1B
  const KB_PGUP := 0x355B1B
  const KB_RGHT := 0x435B1B
  const KB_LNDN := 0x425B1B
  const KB_PGDN := 0x365B1B
  const KB_END  := 0x345B1B

  // Upper-case letters; each command also answers to its lower-case letter.
  const KEY_H := 0x48
  const KEY_E := 0x45
  const KEY_B := 0x42
  const KEY_W := 0x57
  const KEY_D := 0x44
  const KEY_Q := 0x51
  const KEY_O := 0x4F

  predicate Letter(code: nat, upper: nat) { code == upper || code == upper + 0x20 }

  // ----- the automaton ------------------------------------------------------

  datatype Mode = Viewing | Editing(text: string) | Done

  datatype State = State(position: int, pageincr: int, format: int, mode: Mode)

  const Start := State(0, INCMIN, 1, Viewing)

  function PosMax(filesize: nat): nat {
    var p := Align(filesize - 241, 16);
    if p < 0 then 0 else p
  }

  /** The bounds put on the page increment at the head of the main loop. */
  function ClampIncrement(p: int): int {
    if p == 0 then INCMAX else if p < INCMIN then INCMIN else if p > INCMAX then INCMAX else p
  }

  function ClampPosition(posmax: nat, p: int): int {
    if p < 0 then 0 else Min(p, posmax)
  }

  // What a command key that is complete in itself does to each part of the state,
  // before any bounds are restored.

  function NewPosition(posmax: int, position: int, pageincr: int, code: nat): int {
    if Letter(code, KEY_H) || code == KB_HOME then 0
    else if Letter(code, KEY_E) || code == KB_END then posmax
    else if code == KB_LNDN then position + 16
    else if code == KB_LNUP then position - 16
    else if code == KB_PGDN then position + pageincr
    else if code == KB_PGUP then position - pageincr
    else position
  }

  function NewIncrement(pageincr: int, code: nat): int {
    if code == KB_RGHT then pageincr / 16 else if code == KB_LEFT then pageincr * 16 else pageincr
  }

  function NewFormat(format: int, code: nat): int {
    if Letter(code, KEY_B) then 1
    else if Letter(code, KEY_W) then 2
    else if Letter(code, KEY_D) then 4
    else if Letter(code, KEY_Q) then 8
    else if Letter(code, KEY_O) then 16
    else format
  }

  function Command(posmax: nat, s: State, code: nat): State {
    State(NewPosition(posmax, s.position, s.pageincr, code), NewIncrement(s.pageincr, code),
          NewFormat(s.format, code), if code == KB_QUIT then Done else s.mode)
  }

  function Settle(posmax: nat, s: State): State {
    State(ClampPosition(posmax, s.position), ClampIncrement(s.pageincr), s.format, s.mode)
  }

  /** What a session is run with: the last useful position and the reading of a seek line. */
  datatype Setup = Setup(posmax: nat, parse: string -> int)

  function Step(v: Setup, s: State, key: Key): State {
    match s.mode
    case Done => s
    case Viewing =>
      if key == KB_SEEK then s.(mode := Editing(""))
      else Settle(v.posmax, Command(v.posmax, s, key))
    case Editing(text) =>
      match EditStep(text, key)
      case Typing(longer) => s.(mode := Editing(longer))
      case Entered(line) => Settle(v.posmax, s.(position := v.parse(line), mode := Viewing))
  }

  /** The state after the first `n` keys. */
  function Run(v: Setup, keys: seq<Key>, n: nat): State
    requires n <= |keys|
  {
    if n == 0 then Start else Step(v, Run(v, keys, n - 1), keys[n - 1])
  }

  /** The states in which a screen is drawn: at the start and after every completed command. */
  function Draws(v: Setup, keys: seq<Key>, n: nat): seq<State>
    requires n <= |keys|
  {
    if n == 0 then [Start]
    else
      var s := Run(v, keys, n);
      Draws(v, keys, n - 1) + if s.mode.Viewing? then [s] else []
  }

  /** After quitting, further keys change and draw nothing. */
  lemma {:induction false} DoneIsFinal(v: Setup, keys: seq<Key>, n: nat, m: nat)
    requires n <= m <= |keys| && Run(v, keys, n).mode.Done?
    ensures Run(v, keys, m) == Run(v, keys, n)
    ensures Draws(v, keys, m) == Draws(v, keys, n)
    decreases m
  {
    if n < m { DoneIsFinal(v, keys, n, m - 1); }
  }

  /** A seek line typed key by key is one step of the automaton from the key that opened it. */
  lemma {:induction false} LineIsOneStep(v: Setup, keys: seq<Key>, start: nat, n: nat)
    requires start <= n <= |keys| && Run(v, keys, start).mode == Editing("")
    requires forall m :: start <= m < n ==> Edit(keys, start, m).Typing?
    ensures var s, line := Run(v, keys, start), Edit(keys, start, n);
      if line.Typing? then
        && Run(v, keys, n) == s.(mode := Editing(line.text))
        && Draws(v, keys, n) == Draws(v, keys, start)
      else
        var t := Settle(v.posmax, s.(position := v.parse(line.text), mode := Viewing));
        && Run(v, keys, n) == t
        && Draws(v, keys, n) == Draws(v, keys, start) + [t]
    decreases n
  {
    if start < n { LineIsOneStep(v, keys, start, n - 1); }
  }

  // ----- the window ---------------------------------------------------------

  /** Bytes of the file that a window at `position` can show. */
  function WindowLength(d: Device, position: int): nat
    requires d.Valid()
  {
    if position < d.size then Min(BUFSIZE, d.Top() - position) else 0
  }

  function Filler(n: nat): (v: seq<byte>)
    ensures |v| == n && forall i :: 0 <= i < n ==> v[i] == 0xFF
  {
    if n == 0 then [] else
      var v := Filler(n - 1) + [0xFF];
      v
  }

  /** The buffer when `shown` bytes of the device reached it: the rest keeps the erasing pattern. */
  function Window(d: Device, position: nat, shown: nat): (w: seq<byte>)
    requires d.Valid() && shown <= BUFSIZE
    ensures |w| == BUFSIZE
  {
    d.View(position, shown) + Filler(BUFSIZE - shown)
  }

  function RowBytes(window: seq<byte>, i: nat): (r: seq<byte>)
    requires |window| == BUFSIZE && i < BUFHIGH
    ensures |r| == 16
  {
    window[16 * i..16 * i + 16]
  }

  /** The first `n` rows of the screen for a window whose first byte is labelled `location`. */
  function Screen(format: nat, location: nat, window: seq<byte>, n: nat): (rows: seq<string>)
    requires format > 0 && |window| == BUFSIZE && n <= BUFHIGH
    ensures |rows| == n
  {
    seq(n, i requires 0 <= i < n => RowPrinter.Row(format, location + 16 * i, RowBytes(window, i)))
  }

  lemma OneMoreRow(format: nat, location: nat, window: seq<byte>, i: nat)
    requires format > 0 && |window| == BUFSIZE && i < BUFHIGH
    ensures Screen(format, location, window, i + 1)
         == Screen(format, location, window, i) + [RowPrinter.Row(format, location + 16 * i, RowBytes(window, i))]
  {
  }

  /** All sixteen rows. */
  function Frame(format: nat, location: nat, window: seq<byte>): (rows: seq<string>)
    requires format > 0 && |window| == BUFSIZE
    ensures |rows| == BUFHIGH
  {
    Screen(format, location, window, BUFHIGH)
  }

  // ----- what a fill brings -------------------------------------------------

  /** The bytes asked for by a read that finds `have` bytes in the window; 0 where no read copies anything. */
  function Chunk(d: Device, position: int, have: nat): (n: nat)
    requires d.Valid() && have <= BUFSIZE
    ensures have + n <= BUFSIZE
    ensures n == 0 <==> have == BUFSIZE || position + have >= d.size
  {
    if position + have >= d.size then 0 else Min(BUFSIZE - have, d.page - (position + have) % d.page)
  }

  /** The bytes in the window after `k` whole reads. */
  function Reach(d: Device, position: int, k: nat): (have: nat)
    requires d.Valid()
    ensures have <= BUFSIZE
  {
    if k == 0 then 0 else
      var have := Reach(d, position, k - 1);
      have + Chunk(d, position, have)
  }

  /** What read `k` of a fill asks for. */
  function Ask(d: Device, position: int, k: nat): nat
    requires d.Valid()
  {
    Chunk(d, position, Reach(d, position, k))
  }

  /** The read that ends a fill, from read `k` on: the first that asks for nothing or whose user copy, the
      fill's first one being number `call`, falls short. */
  function LastRead(d: Device, copies: nat -> nat, position: int, call: nat, k: nat): (last: nat)
    requires d.Valid()
    ensures last >= k
    decreases BUFSIZE - Reach(d, position, k)
  {
    if Ask(d, position, k) == 0 || copies(call + k) < Ask(d, position, k) then k
    else LastRead(d, copies, position, call, k + 1)
  }

  /** It asks for nothing or falls short, and all reads before it ask for something and copy all of it. */
  lemma LastReadStops(d: Device, copies: nat -> nat, position: int, call: nat, k: nat)
    requires d.Valid()
    ensures var last := LastRead(d, copies, position, call, k);
      && (Ask(d, position, last) == 0 || copies(call + last) < Ask(d, position, last))
      && forall i: nat :: k <= i < last ==> 0 < Ask(d, position, i) <= copies(call + i)
  {
    LastReadEnds(d, copies, position, call, k);
    forall i: nat | k <= i < LastRead(d, copies, position, call, k)
      ensures 0 < Ask(d, position, i) <= copies(call + i)
    {
      WholeBefore(d, copies, position, call, k, i);
    }
  }

  lemma {:induction false} LastReadEnds(d: Device, copies: nat -> nat, position: int, call: nat, k: nat)
    requires d.Valid()
    ensures var last := LastRead(d, copies, position, call, k);
      Ask(d, position, last) == 0 || copies(call + last) < Ask(d, position, last)
    decreases BUFSIZE - Reach(d, position, k)
  {
    if !(Ask(d, position, k) == 0 || copies(call + k) < Ask(d, position, k)) {
      LastReadEnds(d, copies, position, call, k + 1);
    }
  }

  lemma {:induction false} WholeBefore(d: Device, copies: nat -> nat, position: int, call: nat, k: nat, i: nat)
    requires d.Valid() && k <= i < LastRead(d, copies, position, call, k)
    ensures 0 < Ask(d, position, i) <= copies(call + i)
    decreases i - k
  {
    if k < i { WholeBefore(d, copies, position, call, k + 1, i); }
  }

  /** The length the program computes. */
  function Datalen(d: Device, copies: nat -> nat, position: int, call: nat): nat
    requires d.Valid()
  {
    Reach(d, position, LastRead(d, copies, position, call, 0))
  }

  /** The bytes that arrived in the window. */
  function Shown(d: Device, copies: nat -> nat, position: int, call: nat): (shown: nat)
    requires d.Valid()
    ensures shown <= BUFSIZE
  {
    var last := LastRead(d, copies, position, call, 0);
    Reach(d, position, last) + Min(copies(call + last), Ask(d, position, last))
  }

  /** The number of the first user copy after the fill. */
  function NextCall(d: Device, copies: nat -> nat, position: int, call: nat): nat
    requires d.Valid()
  {
    var last := LastRead(d, copies, position, call, 0);
    call + last + if Ask(d, position, last) > 0 then 1 else 0
  }

  /** Every read of the fill copies all it asks for. */
  ghost predicate Whole(d: Device, copies: nat -> nat, position: int, call: nat)
    requires d.Valid()
  {
    forall k: nat :: Ask(d, position, k) <= copies(call + k)
  }

  /** A window ends where a read asks for nothing, and no read asks for more than that. */
  lemma ChunkFits(d: Device, position: nat, have: nat)
    requires d.Valid() && position <= d.size && have <= WindowLength(d, position)
    requires have == 0 || have == BUFSIZE || (position + have) % d.page == 0
    ensures position + have <= d.Top()
    ensures have + Chunk(d, position, have) <= WindowLength(d, position)
    ensures Chunk(d, position, have) == 0 <==> have == WindowLength(d, position)
    ensures var next := have + Chunk(d, position, have);
      next == 0 || next == BUFSIZE || (position + next) % d.page == 0
  {
    if have == BUFSIZE {
    } else if position + have < d.size {
      NextPage(position + have, d.page, d.Top());
    } else if position < d.size {
      MultiplesApart(position + have, d.Top(), d.page);
    }
  }

  /** Whole reads stay inside the window and end at page ends. */
  lemma {:induction false} ReachFits(d: Device, position: nat, k: nat)
    requires d.Valid() && position <= d.size
    ensures Reach(d, position, k) <= WindowLength(d, position)
    ensures var have := Reach(d, position, k); have == 0 || have == BUFSIZE || (position + have) % d.page == 0
    ensures Ask(d, position, k) == 0 <==> Reach(d, position, k) == WindowLength(d, position)
    ensures Reach(d, position, k) + Ask(d, position, k) <= WindowLength(d, position)
  {
    if k > 0 {
      ReachFits(d, position, k - 1);
      ChunkFits(d, position, Reach(d, position, k - 1));
    }
    ChunkFits(d, position, Reach(d, position, k));
  }

  /** Once a read asks for nothing, so do all later ones. */
  lemma {:induction false} ReachStays(d: Device, position: int, k: nat, n: nat)
    requires d.Valid() && k <= n && Ask(d, position, k) == 0
    ensures Ask(d, position, n) == 0
    decreases n
  {
    if k < n { ReachStays(d, position, k, n - 1); }
  }

  /** The length counts all bytes that arrived exactly when the read that ended the fill copied nothing. */
  lemma DatalenExact(d: Device, copies: nat -> nat, position: nat, call: nat)
    requires d.Valid() && position <= d.size
    ensures var datalen, shown := Datalen(d, copies, position, call), Shown(d, copies, position, call);
      && datalen <= shown <= WindowLength(d, position)
      && (datalen == shown <==>
            datalen == WindowLength(d, position) || copies(call + LastRead(d, copies, position, call, 0)) == 0)
  {
    LastReadStops(d, copies, position, call, 0);
    ReachFits(d, position, LastRead(d, copies, position, call, 0));
  }

  /** The window is filled, and its length right, exactly when every read of this fill copies all it asks for. */
  lemma FullIffWhole(d: Device, copies: nat -> nat, position: nat, call: nat)
    requires d.Valid() && position <= d.size
    ensures Whole(d, copies, position, call) <==> Shown(d, copies, position, call) == WindowLength(d, position)
    ensures Whole(d, copies, position, call) <==> Datalen(d, copies, position, call) == WindowLength(d, position)
  {
    var last := LastRead(d, copies, position, call, 0);
    LastReadStops(d, copies, position, call, 0);
    ReachFits(d, position, last);
    if Ask(d, position, last) == 0 {
      forall k: nat ensures Ask(d, position, k) <= copies(call + k) {
        if k >= last { ReachStays(d, position, last, k); }
      }
    }
  }

  lemma WindowAt(d: Device, position: nat, shown: nat, i: nat)
    requires d.Valid() && shown <= BUFSIZE && i < BUFSIZE
    ensures Window(d, position, shown)[i] == if i < shown then d.View(position, BUFSIZE)[i] else 0xFF
  {
  }

  /** The first `datalen` bytes being the file and the rest 0xFF: that holds of a filled window exactly when
      what arrived behind `datalen` happens to be 0xFF. */
  lemma DatalenDescribes(d: Device, position: nat, datalen: nat, shown: nat)
    requires d.Valid() && datalen <= shown <= BUFSIZE
    ensures Window(d, position, shown) == Window(d, position, datalen)
       <==> forall i :: datalen <= i < shown ==> d.View(position, BUFSIZE)[i] == 0xFF
  {
    var all, counted := Window(d, position, shown), Window(d, position, datalen);
    forall i | 0 <= i < BUFSIZE
      ensures all[i] == if i < shown then d.View(position, BUFSIZE)[i] else 0xFF
      ensures counted[i] == if i < datalen then d.View(position, BUFSIZE)[i] else 0xFF
    {
      WindowAt(d, position, shown, i);
      WindowAt(d, position, datalen, i);
    }
    if all == counted {
      forall i | datalen <= i < shown ensures d.View(position, BUFSIZE)[i] == 0xFF {
        assert all[i] == counted[i];
      }
    } else {
      var i :| 0 <= i < BUFSIZE && all[i] != counted[i];
      assert d.View(position, BUFSIZE)[i] != 0xFF;
    }
  }

  /** A copy that stops after 10 bytes leaves them in a window whose computed length is 0. */
  lemma ShortCopyIsNotCounted()
    ensures var d, copies := Device(_ => 0, 512, 256), (_: nat) => 10;
      && d.Valid() && Datalen(d, copies, 0, 0) == 0 && Shown(d, copies, 0, 0) == 10
      && Window(d, 0, 10) != Window(d, 0, 0)
  {
    var d, copies := Device(_ => 0, 512, 256), (_: nat) => 10;
    assert Ask(d, 0, 0) == 256;
    assert LastRead(d, copies, 0, 0, 0) == 0;
    DatalenDescribes(d, 0, 0, 10);
    assert d.View(0, BUFSIZE)[0] != 0xFF;
  }

  // ----- the program --------------------------------------------------------

  /** What one `read` adds to the window. */
  lemma ReadExtends(d: Device, position: nat, have: nat, copied: nat)
    requires d.Valid() && have < BUFSIZE
    requires have == 0 || (position + have) % d.page == 0
    requires position <= d.size && have <= WindowLength(d, position)
    ensures var o, n := ReadOutcome(d, position + have, BUFSIZE - have, copied), Chunk(d, position, have);
      && |o.data| == Min(copied, n)
      && d.View(position, have) + o.data == d.View(position, have + |o.data|)
      && (o.ret > 0 <==> 0 < n <= copied)
      && (o.ret > 0 ==> o.ret == n && o.pos == position + have + n)
  {
    ViewSplit(d, position, have, |ReadOutcome(d, position + have, BUFSIZE - have, copied).data|);
  }

  method Erase(buffer: array<byte>)
    modifies buffer
    ensures forall i :: 0 <= i < buffer.Length ==> buffer[i] == 0xFF
  {
    var j := 0;
    while j < buffer.Length
      invariant 0 <= j <= buffer.Length
      invariant forall i :: 0 <= i < j ==> buffer[i] == 0xFF
    {
      buffer[j] := 0xFF;
      j := j + 1;
    }
  }

  /** A fill that still goes on after `k` whole reads brought `have` bytes. */
  ghost predicate Going(d: Device, copies: nat -> nat, position: int, call: nat, k: nat, have: nat)
    requires d.Valid()
  {
    have == Reach(d, position, k) && LastRead(d, copies, position, call, 0) == LastRead(d, copies, position, call, k)
  }

  /** What a fill leaves: its length, the window, and the next user copy. */
  ghost predicate Result(d: Device, copies: nat -> nat, position: nat, call: nat,
                         datalen: nat, window: seq<byte>, next: nat)
    requires d.Valid()
  {
    && datalen == Datalen(d, copies, position, call)
    && window == Window(d, position, Shown(d, copies, position, call))
    && next == NextCall(d, copies, position, call)
  }

  /** A read takes the fill on when it asks for something and copies all of it. */
  lemma GoesOn(d: Device, copies: nat -> nat, position: int, call: nat, k: nat, have: nat)
    requires d.Valid() && have <= BUFSIZE && Going(d, copies, position, call, k, have)
    requires 0 < Chunk(d, position, have) <= copies(call + k)
    ensures Going(d, copies, position, call, k + 1, have + Chunk(d, position, have))
  {
  }

  /** Otherwise the fill ends, and keeps the `got` bytes that this read copied. */
  lemma Ends(d: Device, copies: nat -> nat, position: nat, call: nat, k: nat, have: nat, got: nat, window: seq<byte>)
    requires d.Valid() && have <= BUFSIZE && Going(d, copies, position, call, k, have)
    requires Chunk(d, position, have) == 0 || copies(call + k) < Chunk(d, position, have)
    requires got == Min(copies(call + k), Chunk(d, position, have))
    requires |window| == BUFSIZE && window[..have + got] == d.View(position, have + got)
    requires forall i :: have + got <= i < BUFSIZE ==> window[i] == 0xFF
    ensures Result(d, copies, position, call, have, window,
                   call + k + if Chunk(d, position, have) > 0 then 1 else 0)
  {
    LastIs(d, copies, position, call, k);
    WindowOf(d, position, have + got, window);
  }

  lemma LastIs(d: Device, copies: nat -> nat, position: nat, call: nat, k: nat)
    requires d.Valid() && (Ask(d, position, k) == 0 || copies(call + k) < Ask(d, position, k))
    ensures LastRead(d, copies, position, call, k) == k
  {
  }

  lemma WindowOf(d: Device, position: nat, shown: nat, buffer: seq<byte>)
    requires d.Valid() && shown <= BUFSIZE == |buffer|
    requires buffer[..shown] == d.View(position, shown)
    requires forall i :: shown <= i < BUFSIZE ==> buffer[i] == 0xFF
    ensures buffer == Window(d, position, shown)
  {
    assert buffer == buffer[..shown] + buffer[shown..];
    assert buffer[shown..] == Filler(BUFSIZE - shown);
  }

  /** One `read` into the part of the buffer behind the `where` bytes it already holds. */
  method ReadMore(file: DramFile, buffer: array<byte>, where: nat, ghost position: nat)
    returns (nbytes: int, ghost got: nat)
    requires file.Valid() && buffer.Length == BUFSIZE && where < BUFSIZE
    requires file.fpos == position + where && (where == 0 || file.fpos % file.d.page == 0)
    requires position <= file.d.size && where <= WindowLength(file.d, position)
    requires buffer[..where] == file.d.View(position, where)
    requires forall i :: where <= i < BUFSIZE ==> buffer[i] == 0xFF
    modifies file, buffer
    ensures file.Valid()
    ensures got == Min(file.copies(old(file.calls)), Chunk(file.d, position, where))
    ensures buffer[..where + got] == file.d.View(position, where + got)
    ensures forall i :: where + got <= i < BUFSIZE ==> buffer[i] == 0xFF
    ensures nbytes > 0 <==> 0 < Chunk(file.d, position, where) <= file.copies(old(file.calls))
    ensures nbytes > 0 ==> nbytes == got && file.fpos == position + where + got
    ensures file.calls == old(file.calls) + if Chunk(file.d, position, where) > 0 then 1 else 0
  {
    ghost var o := ReadOutcome(file.d, file.fpos, BUFSIZE - where, file.copies(file.calls));
    ghost var before := buffer[..where];
    ReadExtends(file.d, position, where, file.copies(file.calls));
    nbytes := file.Read(buffer, where, BUFSIZE - where);
    got := |o.data|;
    assert buffer[..where + got] == before + o.data;
  }

  ghost predicate Filled(file: DramFile, buffer: array<byte>, position: nat, call: nat, datalen: nat)
    reads file, buffer
  {
    file.Valid() && Result(file.d, file.copies, position, call, datalen, buffer[..], file.calls)
  }

  /** The loop of `Fill` between two reads: `where` bytes are in the window, the rest is erased. */
  ghost predicate Filling(file: DramFile, buffer: array<byte>, position: nat, call: nat, k: nat, where: nat)
    reads file, buffer
  {
    && file.Valid() && position <= file.d.size
    && file.fpos == position + where && file.calls == call + k
    && Going(file.d, file.copies, position, call, k, where)
    && buffer.Length == BUFSIZE && where <= BUFSIZE
    && buffer[..where] == file.d.View(position, where)
    && forall i :: where <= i < BUFSIZE ==> buffer[i] == 0xFF
  }

  /** One turn of the loop: it goes on after a read that brought something, and has ended otherwise. */
  method Extend(file: DramFile, buffer: array<byte>, where: nat, ghost position: nat, ghost call: nat, ghost k: nat)
    returns (nbytes: int)
    requires Filling(file, buffer, position, call, k, where) && where < BUFSIZE
    modifies file, buffer
    ensures nbytes > 0 ==> nbytes <= BUFSIZE - where && Filling(file, buffer, position, call, k + 1, where + nbytes)
    ensures nbytes <= 0 ==> Filled(file, buffer, position, call, where)
  {
    ReachFits(file.d, position, k);
    ghost var got;
    nbytes, got := ReadMore(file, buffer, where, position);
    if nbytes > 0 {
      GoesOn(file.d, file.copies, position, call, k, where);
    } else {
      Ends(file.d, file.copies, position, call, k, where, got, buffer[..]);
    }
  }

  lemma FullIsFilled(file: DramFile, buffer: array<byte>, position: nat, call: nat, k: nat)
    requires Filling(file, buffer, position, call, k, BUFSIZE)
    ensures Filled(file, buffer, position, call, BUFSIZE)
  {
    Ends(file.d, file.copies, position, call, k, BUFSIZE, 0, buffer[..]);
  }

  /** Reads until the window is full or a read brings nothing. */
  method Fill(file: DramFile, buffer: array<byte>) returns (datalen: nat)
    requires file.Valid() && buffer.Length == BUFSIZE && file.fpos <= file.d.size
    requires forall i :: 0 <= i < BUFSIZE ==> buffer[i] == 0xFF
    modifies file, buffer
    ensures Filled(file, buffer, old(file.fpos), old(file.calls), datalen)
  {
    ghost var position, call, k := file.fpos, file.calls, 0;
    var toRead := BUFSIZE;
    var where := 0;
    while toRead > 0
      invariant 0 <= toRead <= BUFSIZE && where == BUFSIZE - toRead
      invariant Filling(file, buffer, position, call, k, where)
      decreases toRead
    {
      var nbytes := Extend(file, buffer, where, position, call, k);
      if nbytes <= 0 { break; }
      toRead := toRead - nbytes;
      where := where + nbytes;
      k := k + 1;
    }
    datalen := BUFSIZE - toRead;
    if toRead == 0 { FullIsFilled(file, buffer, position, call, k); }
  }

  /** Erases the buffer, seeks to `position` and fills the window from there. */
  method Refill(file: DramFile, buffer: array<byte>, position: nat) returns (location: int, datalen: nat)
    requires file.Valid() && buffer.Length == BUFSIZE && position <= file.d.size
    modifies file, buffer
    ensures location == position
    ensures Filled(file, buffer, position, old(file.calls), datalen)
  {
    Erase(buffer);
    location := file.Llseek(position, 0);
    datalen := Fill(file, buffer);
  }

  /** Prints row `i` below the rows that are there. */
  method DrawLine(format: int, position: nat, location: nat, buffer: array<byte>, i: nat, outline: array<char>,
                  rows: seq<string>)
    returns (rows': seq<string>)
    requires RowPrinter.IsFormat(format) && location == position + 16 * i < SIZEMAX
    requires buffer.Length == BUFSIZE && i < BUFHIGH && outline.Length == RowPrinter.OUTLINE
    requires rows == Screen(format, position, buffer[..], i)
    modifies outline
    ensures rows' == Screen(format, position, buffer[..], i + 1)
  {
    var linelen := RowPrinter.DrawRow(format, location, buffer, i, outline);
    assert buffer[i * 16..i * 16 + 16] == RowBytes(buffer[..], i);
    OneMoreRow(format, position, buffer[..], i);
    rows' := rows + [CString(outline[..])];
  }

  /** Prints the sixteen rows of the buffer. */
  method DrawScreen(format: int, position: nat, buffer: array<byte>) returns (rows: seq<string>)
    requires RowPrinter.IsFormat(format) && position + 240 < SIZEMAX && buffer.Length == BUFSIZE
    ensures rows == Frame(format, position, buffer[..])
  {
    var outline := new char[RowPrinter.OUTLINE](_ => '\0');
    var location := position;
    rows := [];
    var i := 0;
    while i < BUFHIGH
      invariant 0 <= i <= BUFHIGH && location == position + 16 * i
      invariant rows == Screen(format, position, buffer[..], i)
    {
      rows := DrawLine(format, position, location, buffer, i, outline, rows);
      location := location + 16;
      i := i + 1;
    }
  }

  /** The frame shows, of the window of the state it was drawn in, what arrived when copy `call` was its first. */
  ghost predicate Shows(d: Device, copies: nat -> nat, call: nat, s: State, frame: seq<string>)
    requires d.Valid()
  {
    && 0 <= s.position && s.format > 0
    && frame == Frame(s.format, s.position, Window(d, s.position, Shown(d, copies, s.position, call)))
  }

  /** The user copy that follows a fill, as a function of the fill's position and first copy. */
  function Follow(d: Device, copies: nat -> nat): (int, nat) -> nat
    requires d.Valid()
  {
    (position, call) => NextCall(d, copies, position, call)
  }

  /** The number of the first user copy for frame `k`, when copy `call` is the first for frame 0. */
  function CallAt(follow: (int, nat) -> nat, call: nat, states: seq<State>, k: nat): nat
    requires k <= |states|
  {
    if k == 0 then call else follow(states[k - 1].position, CallAt(follow, call, states, k - 1))
  }

  lemma {:induction false} CallAtKept(follow: (int, nat) -> nat, call: nat,
                                      states: seq<State>, more: seq<State>, k: nat)
    requires k <= |states| && states <= more
    ensures CallAt(follow, call, more, k) == CallAt(follow, call, states, k)
  {
    if k > 0 { CallAtKept(follow, call, states, more, k - 1); }
  }

  /** Frame `k` shows state `k`, each fill going on with the user copies where the one before it stopped. */
  ghost predicate AllShow(d: Device, copies: nat -> nat, call: nat, states: seq<State>, frames: seq<seq<string>>)
    requires d.Valid()
  {
    && |frames| <= |states|
    && forall k :: 0 <= k < |frames| ==>
         Shows(d, copies, CallAt(Follow(d, copies), call, states, k), states[k], frames[k])
  }

  /** `posmax` is a multiple of 16 inside the file, or 0. */
  lemma PosMaxInside(filesize: nat)
    ensures PosMax(filesize) % 16 == 0
    ensures 0 <= PosMax(filesize) <= filesize
    ensures PosMax(filesize) > 0 ==> PosMax(filesize) + 241 <= filesize
  {
  }

  predicate PowerOf16(p: int) {
    p == 1 || (p > 1 && p % 16 == 0 && PowerOf16(p / 16))
  }

  /** The increments reachable by steps of four bits between the two bounds. */
  predicate IsIncrement(p: int) { INCMIN <= p <= INCMAX && PowerOf16(p) }

  lemma BoundsArePowers()
    ensures PowerOf16(INCMIN) && PowerOf16(INCMAX)
  {
    assert PowerOf16(0x1000);
    assert PowerOf16(0x10_0000);
    assert PowerOf16(0x1000_0000);
  }

  lemma IncrementSteps(p: int)
    requires IsIncrement(p)
    ensures p % 16 == 0 && ClampIncrement(p) == p
    ensures IsIncrement(ClampIncrement(p / 16)) && IsIncrement(ClampIncrement(p * 16))
  {
    BoundsArePowers();
    assert p * 16 / 16 == p && p * 16 % 16 == 0;
  }

  predicate StateOk(posmax: nat, s: State) {
    && 0 <= s.position <= posmax && s.position % 16 == 0
    && IsIncrement(s.pageincr)
    && RowPrinter.IsFormat(s.format)
    && (s.mode.Editing? ==> |s.mode.text| < LINEMAX && AllPrintable(s.mode.text))
  }

  lemma CommandPosition(posmax: nat, s: State, code: nat)
    requires s.position % 16 == 0 && s.pageincr % 16 == 0 && posmax % 16 == 0
    ensures Command(posmax, s, code).position % 16 == 0
  {
    SumOnGrid(s.position, s.pageincr);
    SumOnGrid(s.position, 16);
  }

  lemma CommandIncrement(posmax: nat, s: State, code: nat)
    requires IsIncrement(s.pageincr)
    ensures IsIncrement(ClampIncrement(Command(posmax, s, code).pageincr))
  {
    IncrementSteps(s.pageincr);
  }

  lemma CommandFormat(posmax: nat, s: State, code: nat)
    requires RowPrinter.IsFormat(s.format) && !s.mode.Editing?
    ensures RowPrinter.IsFormat(Command(posmax, s, code).format) && !Command(posmax, s, code).mode.Editing?
  {
  }

  lemma SumOnGrid(a: int, b: int)
    requires a % 16 == 0 && b % 16 == 0
    ensures (a + b) % 16 == 0 && (a - b) % 16 == 0
  {
  }

  lemma ClampOnGrid(posmax: nat, p: int)
    requires p % 16 == 0 && posmax % 16 == 0
    ensures 0 <= ClampPosition(posmax, p) <= posmax && ClampPosition(posmax, p) % 16 == 0
  {
  }

  ghost predicate SetupOk(v: Setup) {
    v.posmax % 16 == 0 && forall text: string :: |text| <= LINEMAX ==> v.parse(text) % 16 == 0
  }

  lemma StepKeepsStateOk(v: Setup, s: State, key: Key)
    requires SetupOk(v) && StateOk(v.posmax, s)
    ensures StateOk(v.posmax, Step(v, s, key))
  {
    IncrementSteps(s.pageincr);
    match s.mode {
      case Viewing =>
        CommandPosition(v.posmax, s, key);
        CommandIncrement(v.posmax, s, key);
        CommandFormat(v.posmax, s, key);
        ClampOnGrid(v.posmax, Command(v.posmax, s, key).position);
      case Editing(text) =>
        var line := EditStep(text, key);
        if line.Entered? { ClampOnGrid(v.posmax, v.parse(line.text)); }
      case Done =>
    }
  }

  lemma {:induction false} RunStateOk(v: Setup, keys: seq<Key>, n: nat)
    requires SetupOk(v) && n <= |keys|
    ensures StateOk(v.posmax, Run(v, keys, n))
  {
    if n == 0 {
      BoundsArePowers();
    } else {
      RunStateOk(v, keys, n - 1);
      StepKeepsStateOk(v, Run(v, keys, n - 1), keys[n - 1]);
    }
  }

  /** The viewer on a file of this size. */
  function SetupFor(filesize: nat): Setup { Setup(PosMax(filesize), SeekPosition) }

  lemma SetupForOk(filesize: nat)
    ensures SetupOk(SetupFor(filesize))
  {
    PosMaxInside(filesize);
    forall text: string | |text| <= LINEMAX ensures SeekPosition(text) % 16 == 0 {
      SeekPositionBounds(text);
    }
  }

  /** `switch (inch)`, the commands other than seeking. */
  method Dispatch(code: nat, posmax: int, s: State) returns (position: int, pageincr: int, format: int, done: bool)
    ensures position == NewPosition(posmax, s.position, s.pageincr, code)
    ensures pageincr == NewIncrement(s.pageincr, code) && format == NewFormat(s.format, code)
    ensures done <==> code == KB_QUIT
  {
    position, pageincr, format, done := s.position, s.pageincr, s.format, false;
    if Letter(code, KEY_H) || code == KB_HOME { position := 0; }
    else if Letter(code, KEY_E) || code == KB_END { position := posmax; }
    else if code == KB_LNDN { position := position + 16; }
    else if code == KB_LNUP { position := position - 16; }
    else if code == KB_PGDN { position := position + pageincr; }
    else if code == KB_PGUP { position := position - pageincr; }
    else if code == KB_RGHT { pageincr := pageincr / 16; }
    else if code == KB_LEFT { pageincr := pageincr * 16; }
    else if Letter(code, KEY_B) { format := 1; }
    else if Letter(code, KEY_W) { format := 2; }
    else if Letter(code, KEY_D) { format := 4; }
    else if Letter(code, KEY_Q) { format := 8; }
    else if Letter(code, KEY_O) { format := 16; }
    else if code == KB_QUIT { done := true; }
  }

  /** One command: the key, for a seek also its line, and the bounds put on `position` afterwards. */
  method Obey(v: Setup, s: State, keys: seq<Key>, n: nat)
    returns (next: nat, waiting: bool, position: int, pageincr: int, format: int, done: bool)
    requires n < |keys| && s.mode.Viewing? && s == Run(v, keys, n) && IsIncrement(s.pageincr)
    ensures n < next <= |keys|
    ensures waiting ==> next == |keys| && Draws(v, keys, next) == Draws(v, keys, n)
    ensures !waiting ==>
      var t := State(position, ClampIncrement(pageincr), format, if done then Done else Viewing);
      && Run(v, keys, next) == t
      && Draws(v, keys, next) == Draws(v, keys, n) + if done then [] else [t]
  {
    IncrementSteps(s.pageincr);
    var inch := keys[n];
    next, waiting := n + 1, false;
    if inch == KB_SEEK {
      var inbuf := new char[LINEMAX + 1](_ => '\0');
      var entered;
      next, entered := EditLine(keys, n + 1, inbuf);
      LineIsOneStep(v, keys, n + 1, next);
      waiting := !entered;
      position, pageincr, format, done := v.parse(CString(inbuf[..])), s.pageincr, s.format, false;
    } else {
      position, pageincr, format, done := Dispatch(inch, v.posmax, s);
    }
    if position < 0 { position := 0; }
    if position > v.posmax { position := v.posmax; }
  }

  /** Draws one frame: the window at `position` in the chosen format. */
  method DrawFrame(file: DramFile, buffer: array<byte>, position: int, format: int, ghost s: State)
    returns (rows: seq<string>)
    requires file.Valid() && file.d.size <= SIZEMAX && buffer.Length == BUFSIZE
    requires StateOk(PosMax(file.d.size), s) && position == s.position && format == s.format
    modifies file, buffer
    ensures file.Valid()
    ensures Shows(file.d, file.copies, old(file.calls), s, rows)
    ensures file.calls == NextCall(file.d, file.copies, s.position, old(file.calls))
  {
    PosMaxInside(file.d.size);
    var location, datalen;
    location, datalen := Refill(file, buffer, position);
    rows := DrawScreen(format, location, buffer);
  }

  /** All states drawn during the first `n` keys have been shown. */
  ghost predicate Caught(d: Device, copies: nat -> nat, call: nat, keys: seq<Key>, n: nat, frames: seq<seq<string>>)
    requires d.Valid() && n <= |keys|
  {
    && |frames| == |Draws(SetupFor(d.size), keys, n)|
    && AllShow(d, copies, call, Draws(SetupFor(d.size), keys, n), frames)
  }

  /** The head of the main loop after `n` keys: in state `s`, and only `s` itself not yet shown. */
  ghost predicate AtHead(d: Device, copies: nat -> nat, call: nat, keys: seq<Key>, n: nat, s: State,
                         frames: seq<seq<string>>)
    requires d.Valid() && n <= |keys|
  {
    var states := Draws(SetupFor(d.size), keys, n);
    && s == Run(SetupFor(d.size), keys, n) && s.mode.Viewing?
    && |frames| + 1 == |states| && states[|frames|] == s
    && AllShow(d, copies, call, states, frames)
  }

  /** The number of the next user copy when `frames` have been drawn. */
  ghost function CallNow(d: Device, copies: nat -> nat, call: nat, keys: seq<Key>, n: nat, frames: nat): nat
    requires d.Valid() && n <= |keys| && frames <= |Draws(SetupFor(d.size), keys, n)|
  {
    CallAt(Follow(d, copies), call, Draws(SetupFor(d.size), keys, n), frames)
  }

  lemma AllShowAppend(d: Device, copies: nat -> nat, call: nat, states: seq<State>,
                      frames: seq<seq<string>>, rows: seq<string>)
    requires d.Valid() && |frames| < |states| && AllShow(d, copies, call, states, frames)
    requires Shows(d, copies, CallAt(Follow(d, copies), call, states, |frames|), states[|frames|], rows)
    ensures AllShow(d, copies, call, states, frames + [rows])
  {
    forall k: nat | k < |frames| + 1
      ensures Shows(d, copies, CallAt(Follow(d, copies), call, states, k), states[k], (frames + [rows])[k])
    {
      if k < |frames| { assert (frames + [rows])[k] == frames[k]; }
    }
  }

  lemma OneMoreFrame(d: Device, copies: nat -> nat, call: nat, keys: seq<Key>, n: nat, s: State,
                     frames: seq<seq<string>>, rows: seq<string>)
    requires d.Valid() && n <= |keys| && AtHead(d, copies, call, keys, n, s, frames)
    requires Shows(d, copies, CallNow(d, copies, call, keys, n, |frames|), s, rows)
    ensures Caught(d, copies, call, keys, n, frames + [rows])
    ensures CallNow(d, copies, call, keys, n, |frames| + 1)
         == NextCall(d, copies, s.position, CallNow(d, copies, call, keys, n, |frames|))
  {
    AllShowAppend(d, copies, call, Draws(SetupFor(d.size), keys, n), frames, rows);
  }

  lemma OneMoreCommand(d: Device, copies: nat -> nat, call: nat, keys: seq<Key>, n: nat, m: nat, t: State,
                       frames: seq<seq<string>>)
    requires d.Valid() && n <= |keys| && m <= |keys| && t == Run(SetupFor(d.size), keys, m)
    requires Caught(d, copies, call, keys, n, frames)
    requires Draws(SetupFor(d.size), keys, m) == Draws(SetupFor(d.size), keys, n) + if t.mode.Viewing? then [t] else []
    ensures if t.mode.Viewing? then AtHead(d, copies, call, keys, m, t, frames)
            else Caught(d, copies, call, keys, m, frames)
    ensures CallNow(d, copies, call, keys, m, |frames|) == CallNow(d, copies, call, keys, n, |frames|)
  {
    var states, more := Draws(SetupFor(d.size), keys, n), Draws(SetupFor(d.size), keys, m);
    var follow := Follow(d, copies);
    forall k: nat | k <= |states| ensures CallAt(follow, call, more, k) == CallAt(follow, call, states, k) {
      CallAtKept(follow, call, states, more, k);
    }
  }

  method LastPosition(filesize: int) returns (posmax: int)
    requires filesize >= 0
    ensures posmax == PosMax(filesize)
  {
    posmax := Align(filesize - 241, 16);
    if posmax < 0 { posmax := 0; }
  }

  /** Before the main loop: the size is where a seek to the end arrives, and the last position follows from it. */
  method Prepare(file: DramFile) returns (v: Setup)
    requires file.Valid()
    modifies file
    ensures file.Valid() && v == SetupFor(file.d.size) && file.calls == old(file.calls)
  {
    var filesize := file.Llseek(0, 2);
    assert filesize == file.d.size;
    var posmax := LastPosition(filesize);
    v := Setup(posmax, SeekPosition);
  }

  /** The main loop, for as long as there are keys: one frame for every drawing state of the automaton. */
  method Session(file: DramFile, keys: seq<Key>) returns (frames: seq<seq<string>>)
    requires file.Valid() && file.d.size <= SIZEMAX
    modifies file
    ensures file.Valid()
    ensures Caught(file.d, file.copies, old(file.calls), keys, |keys|, frames)
  {
    ghost var d, copies, call := file.d, file.copies, file.calls;
    var v := Prepare(file);
    SetupForOk(d.size);
    var buffer := new byte[BUFSIZE](_ => 0);
    var position, pageincr, format, done := 0, INCMIN, 1, false;
    var n := 0;
    frames := [];
    while !done
      invariant file.Valid() && n <= |keys|
      invariant !done ==>
        && AtHead(d, copies, call, keys, n, State(position, ClampIncrement(pageincr), format, Viewing), frames)
        && file.calls == CallNow(d, copies, call, keys, n, |frames|)
      invariant done ==> Run(v, keys, n).mode.Done? && Caught(d, copies, call, keys, n, frames)
      decreases |keys| - n
    {
      pageincr := ClampIncrement(pageincr);
      var s := State(position, pageincr, format, Viewing);
      RunStateOk(v, keys, n);
      assert s == Run(v, keys, n);
      var rows := DrawFrame(file, buffer, position, format, s);
      OneMoreFrame(d, copies, call, keys, n, s, frames, rows);
      frames := frames + [rows];
      if n == |keys| { return; }
      ghost var m := n;
      var waiting;
      n, waiting, position, pageincr, format, done := Obey(v, s, keys, n);
      if waiting { return; }
      OneMoreCommand(d, copies, call, keys, m, n, Run(v, keys, n), frames);
    }
    DoneIsFinal(v, keys, n, |keys|);
  }
}
