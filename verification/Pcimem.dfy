/** The PCI memory dumper: its mapping, its run-collapsing listing, and its write with readback. */
module Pcimem {
  import opened Words
  import Hex

  /** Bytes per item of each access type; other letters are refused. */
  function TypeWidth(access: char): Option<nat> {
    match access
    case 'b' => Some(1)
    case 'B' => Some(1)
    case 'h' => Some(2)
    case 'H' => Some(2)
    case 'w' => Some(4)
    case 'W' => Some(4)
    case 'd' => Some(8)
    case 'D' => Some(8)
    case _ => None
  }

  /** The letters of the usage text, in either case, and nothing else. */
  lemma WidthOfLetter(access: char, i: nat)
    requires i < 4
    ensures TypeWidth(access) == Some([1, 2, 4, 8][i]) <==> access == "bhwd"[i] || access == "BHWD"[i]
    ensures TypeWidth(access) == None <==> access !in "bhwdBHWD"
  {
    assert "bhwdBHWD"[0] == 'b' && "bhwdBHWD"[1] == 'h' && "bhwdBHWD"[2] == 'w' && "bhwdBHWD"[3] == 'd';
    assert "bhwdBHWD"[4] == 'B' && "bhwdBHWD"[5] == 'H' && "bhwdBHWD"[6] == 'W' && "bhwdBHWD"[7] == 'D';
  }

  // ----- the listing --------------------------------------------------------

  const DOTS := "..."

  /** The offset as it is printed: cut to 32 bits. */
  function Offset(target: int, w: nat, i: nat): nat { (target + i * w) % 0x1_0000_0000 }

  function ValueLine(offset: nat, w: nat, value: nat): string {
    "0x" + Hex.Print(offset, 4) + ": 0x" + Hex.Print(value, 2 * w)
  }

  /** Item `n - 1` exists and repeats the item before it. */
  predicate Repeats(vals: seq<nat>, n: nat)
    requires n <= |vals|
  {
    n >= 2 && vals[n - 1] == vals[n - 2]
  }

  /** The lines for the first `n` items: a value where it changes, one mark for all its repetitions. */
  function Lines(target: int, w: nat, vals: seq<nat>, n: nat): seq<string>
    requires n <= |vals|
  {
    if n == 0 then []
    else Lines(target, w, vals, n - 1) +
         if !Repeats(vals, n) then [ValueLine(Offset(target, w, n - 1), w, vals[n - 1])]
         else if !Repeats(vals, n - 1) then [DOTS]
         else []
  }

  // ----- reading the listing back -------------------------------------------

  /** `known`, with its last value repeated until there are `n`. */
  function Extend(known: seq<nat>, n: nat): (r: seq<nat>)
    requires n == 0 || known != []
    ensures |r| == if n > |known| then n else |known|
  {
    if n <= |known| then known else Extend(known, n - 1) + [known[|known| - 1]]
  }

  /** The offset and the value of a line that is not a mark. */
  function ParseLine(line: string): (nat, nat) {
    if |line| < 2 then (0, 0)
    else
      var digits := Hex.DigitPrefix(line[2..]);
      (Hex.ValueOf(digits), if |line| < |digits| + 6 then 0 else Hex.ValueOf(line[|digits| + 6..]))
  }

  /** The item a printed offset belongs to. */
  function ItemAt(target: int, w: nat, offset: nat): nat
    requires w > 0
  {
    ((offset - target) % 0x1_0000_0000) / w
  }

  /** The values up to the last change, from the first `n` lines. */
  function Known(target: int, w: nat, lines: seq<string>, n: nat): seq<nat>
    requires w > 0 && n <= |lines|
  {
    if n == 0 then []
    else Learn(target, w, Known(target, w, lines, n - 1), lines[n - 1])
  }

  /** What one more line adds to the values known. */
  function Learn(target: int, w: nat, known: seq<nat>, line: string): seq<nat>
    requires w > 0
  {
    if line == DOTS then known
    else
      var (offset, value) := ParseLine(line);
      (if known == [] then [] else Extend(known, ItemAt(target, w, offset))) + [value]
  }

  function KnownFrom(target: int, w: nat, lines: seq<string>): seq<nat>
    requires w > 0
  {
    Known(target, w, lines, |lines|)
  }

  /** The items, from the listing and the three numbers given on the command line. */
  function Decode(target: int, w: nat, count: nat, lines: seq<string>): seq<nat>
    requires w > 0
  {
    var known := KnownFrom(target, w, lines);
    if known == [] then [] else Extend(known, count)
  }

  lemma ParseValueLine(offset: nat, w: nat, value: nat)
    ensures ValueLine(offset, w, value) != DOTS
    ensures ParseLine(ValueLine(offset, w, value)) == (offset, value)
  {
    var a, b := Hex.Print(offset, 4), Hex.Print(value, 2 * w);
    Hex.PrintRoundTrip(offset, 4);
    Hex.PrintRoundTrip(value, 2 * w);
    LineParts(a, b);
    Hex.PrefixStops(a, ": 0x" + b);
  }

  /** A line has two digits for every byte of the item, and four for an offset below 2^16, more above. */
  lemma ValueLineWidth(offset: nat, w: nat, value: nat)
    requires w > 0 && value < Pow256(w)
    ensures |ValueLine(offset, w, value)| >= 10 + 2 * w
    ensures |ValueLine(offset, w, value)| == 10 + 2 * w <==> offset < 0x1_0000
  {
    Pow256IsPow16(w);
    Hex.PrintLength(value, 2 * w);
    Hex.PrintLength(offset, 4);
    assert Pow16(4) == 0x1_0000;
  }

  lemma LineParts(a: string, b: string)
    ensures var line := "0x" + a + ": 0x" + b;
      && |line| == |a| + |b| + 6 && line[0] == '0'
      && line[2..] == a + (": 0x" + b)
      && line[|a| + 6..] == b
  {
  }

  /** A printed offset names its item as long as the items span less than 2^32 bytes. */
  lemma ItemOfOffset(target: int, w: nat, i: nat)
    requires w > 0 && i * w < 0x1_0000_0000
    ensures ItemAt(target, w, Offset(target, w, i)) == i
  {
    CutDifference(target, i * w);
    DivModUnique(i * w, w, i, 0);
  }

  lemma CutDifference(target: int, d: nat)
    requires d < 0x1_0000_0000
    ensures ((target + d) % 0x1_0000_0000 - target) % 0x1_0000_0000 == d
  {
  }

  lemma {:induction false} KnownPrefix(target: int, w: nat, lines: seq<string>, more: seq<string>, n: nat)
    requires w > 0 && n <= |lines|
    ensures Known(target, w, lines + more, n) == Known(target, w, lines, n)
  {
    if n > 0 {
      KnownPrefix(target, w, lines, more, n - 1);
      assert (lines + more)[n - 1] == lines[n - 1];
    }
  }

  lemma {:induction false} ExtendLast(known: seq<nat>, n: nat)
    requires known != []
    ensures Extend(known, n)[|Extend(known, n)| - 1] == known[|known| - 1]
  {
    if n > |known| { ExtendLast(known, n - 1); }
  }

  /** What the listing of the first items tells: everything, once the last value is repeated up to `n`. */
  ghost predicate Tells(vals: seq<nat>, n: nat, known: seq<nat>)
    requires n <= |vals|
  {
    0 < |known| <= n && Extend(known, n) == vals[..n]
  }

  lemma AfterDots(target: int, w: nat, before: seq<string>)
    requires w > 0
    ensures KnownFrom(target, w, before + [DOTS]) == KnownFrom(target, w, before)
  {
    KnownPrefix(target, w, before, [DOTS], |before|);
  }

  lemma AfterValue(target: int, w: nat, before: seq<string>, i: nat, value: nat)
    requires w > 0 && i * w < 0x1_0000_0000
    ensures var line, known := ValueLine(Offset(target, w, i), w, value), KnownFrom(target, w, before);
      KnownFrom(target, w, before + [line]) == (if known == [] then [] else Extend(known, i)) + [value]
  {
    var line := ValueLine(Offset(target, w, i), w, value);
    KnownPrefix(target, w, before, [line], |before|);
    ParseValueLine(Offset(target, w, i), w, value);
    ItemOfOffset(target, w, i);
  }

  lemma TellsRepeat(vals: seq<nat>, n: nat, known: seq<nat>)
    requires n < |vals| && Tells(vals, n, known) && Repeats(vals, n + 1)
    ensures Tells(vals, n + 1, known)
  {
    ExtendLast(known, n);
    assert vals[..n + 1] == vals[..n] + [vals[n]];
  }

  lemma TellsValue(vals: seq<nat>, n: nat, known: seq<nat>)
    requires n < |vals| && (if n == 0 then known == [] else Tells(vals, n, known))
    ensures Tells(vals, n + 1, (if known == [] then [] else Extend(known, n)) + [vals[n]])
  {
    assert vals[..n + 1] == vals[..n] + [vals[n]];
  }

  lemma Bounded(n: nat, m: nat, w: nat)
    requires n <= m && m * w < 0x1_0000_0000
    ensures n * w < 0x1_0000_0000
  {
    assert n * w <= m * w;
  }

  /** `lines` continues `before` by item `n`. */
  ghost predicate Continues(target: int, w: nat, vals: seq<nat>, n: nat, before: seq<string>, lines: seq<string>)
    requires n < |vals|
  {
    if !Repeats(vals, n + 1) then lines == before + [ValueLine(Offset(target, w, n), w, vals[n])]
    else lines == before + if !Repeats(vals, n) then [DOTS] else []
  }

  lemma NextLine(target: int, w: nat, vals: seq<nat>, n: nat)
    requires n < |vals|
    ensures Continues(target, w, vals, n, Lines(target, w, vals, n), Lines(target, w, vals, n + 1))
  {
  }

  lemma NextItem(target: int, w: nat, vals: seq<nat>, n: nat, before: seq<string>, lines: seq<string>)
    requires w > 0 && n < |vals| && n * w < 0x1_0000_0000 && Continues(target, w, vals, n, before, lines)
    requires if n == 0 then before == [] else Tells(vals, n, KnownFrom(target, w, before))
    ensures Tells(vals, n + 1, KnownFrom(target, w, lines))
  {
    var known := KnownFrom(target, w, before);
    if Repeats(vals, n + 1) {
      TellsRepeat(vals, n, known);
      AfterDots(target, w, before);
      assert before + [] == before;
    } else {
      AfterValue(target, w, before, n, vals[n]);
      TellsValue(vals, n, known);
    }
  }

  /** After `n + 1` items the listing determines them. */
  lemma {:induction false} KnownItems(target: int, w: nat, vals: seq<nat>, n: nat)
    requires w > 0 && n < |vals| && n * w < 0x1_0000_0000
    ensures Tells(vals, n + 1, KnownFrom(target, w, Lines(target, w, vals, n + 1)))
  {
    if n > 0 {
      Bounded(n - 1, n, w);
      KnownItems(target, w, vals, n - 1);
    }
    NextLine(target, w, vals, n);
    NextItem(target, w, vals, n, Lines(target, w, vals, n), Lines(target, w, vals, n + 1));
  }

  /** The listing loses nothing: for any items, volatile or not, the listing decodes to exactly them. */
  lemma ListingIsLossless(target: int, w: nat, vals: seq<nat>)
    requires w > 0 && |vals| * w <= 0x1_0000_0000
    ensures Decode(target, w, |vals|, Lines(target, w, vals, |vals|)) == vals
  {
    if vals != [] {
      assert (|vals| - 1) * w == |vals| * w - w;
      KnownItems(target, w, vals, |vals| - 1);
      assert vals[..|vals|] == vals;
    }
  }

  // ----- runs ---------------------------------------------------------------

  /** The last run, one item longer. */
  function Longer(r: seq<(nat, nat)>): (s: seq<(nat, nat)>)
    requires r != []
    ensures s != []
  {
    r[..|r| - 1] + [(r[|r| - 1].0, r[|r| - 1].1 + 1)]
  }

  /** The maximal runs of the first `n` items, as values with their lengths. */
  function Runs(vals: seq<nat>, n: nat): (r: seq<(nat, nat)>)
    requires n <= |vals|
    ensures n > 0 ==> r != []
  {
    if n == 0 then []
    else if Repeats(vals, n) then Longer(Runs(vals, n - 1))
    else Runs(vals, n - 1) + [(vals[n - 1], 1)]
  }

  function Repeated(v: nat, n: nat): seq<nat> { seq(n, _ => v) }

  /** The items that the first `n` runs stand for. */
  function Unroll(runs: seq<(nat, nat)>, n: nat): seq<nat>
    requires n <= |runs|
  {
    if n == 0 then [] else Unroll(runs, n - 1) + Repeated(runs[n - 1].0, runs[n - 1].1)
  }

  /** No run is empty, and neighbours differ: the runs are maximal. */
  ghost predicate Maximal(runs: seq<(nat, nat)>) {
    && (forall i :: 0 <= i < |runs| ==> runs[i].1 > 0)
    && (forall i :: 0 < i < |runs| ==> runs[i].0 != runs[i - 1].0)
  }

  lemma {:induction false} UnrollPrefix(a: seq<(nat, nat)>, b: seq<(nat, nat)>, n: nat)
    requires n <= |a| && n <= |b| && a[..n] == b[..n]
    ensures Unroll(a, n) == Unroll(b, n)
  {
    if n > 0 {
      assert a[..n - 1] == a[..n][..n - 1] && b[..n - 1] == b[..n][..n - 1];
      assert a[n - 1] == a[..n][n - 1] == b[n - 1];
      UnrollPrefix(a, b, n - 1);
    }
  }

  lemma LongerRun(r: seq<(nat, nat)>)
    requires r != [] && Maximal(r)
    ensures Maximal(Longer(r)) && |Longer(r)| == |r| && Longer(r)[|r| - 1].0 == r[|r| - 1].0
    ensures Unroll(Longer(r), |r|) == Unroll(r, |r|) + [r[|r| - 1].0]
  {
    LongerUnrolled(r);
  }

  lemma LongerUnrolled(r: seq<(nat, nat)>)
    requires r != []
    ensures |Longer(r)| == |r| && Unroll(Longer(r), |r|) == Unroll(r, |r|) + [r[|r| - 1].0]
  {
    var k, v, m := |r| - 1, r[|r| - 1].0, r[|r| - 1].1;
    UnrollPrefix(Longer(r), r, k);
    assert Longer(r)[k] == (v, m + 1);
    assert Repeated(v, m + 1) == Repeated(v, m) + [v];
    Join(Unroll(r, k), Repeated(v, m), [v]);
  }

  lemma Join<T>(a: seq<T>, b: seq<T>, c: seq<T>)
    ensures a + (b + c) == a + b + c
  {
  }

  lemma NewRun(r: seq<(nat, nat)>, v: nat)
    requires Maximal(r) && (r != [] ==> r[|r| - 1].0 != v)
    ensures Maximal(r + [(v, 1)]) && Unroll(r + [(v, 1)], |r| + 1) == Unroll(r, |r|) + [v]
  {
    NewRunMaximal(r, v);
    NewRunUnrolled(r, v);
  }

  lemma NewRunMaximal(r: seq<(nat, nat)>, v: nat)
    requires Maximal(r) && (r != [] ==> r[|r| - 1].0 != v)
    ensures Maximal(r + [(v, 1)])
  {
  }

  lemma NewRunUnrolled(r: seq<(nat, nat)>, v: nat)
    ensures Unroll(r + [(v, 1)], |r| + 1) == Unroll(r, |r|) + [v]
  {
    var s := r + [(v, 1)];
    assert s[..|r|] == r[..|r|] && s[|r|] == (v, 1);
    UnrollPrefix(s, r, |r|);
    assert Repeated(v, 1) == [v];
  }

  lemma OneMoreItem(vals: seq<nat>, n: nat)
    requires 0 < n <= |vals|
    ensures vals[..n] == vals[..n - 1] + [vals[n - 1]]
  {
  }

  /** `Runs` is the decomposition of the items into maximal runs. */
  lemma {:induction false} RunsAreMaximal(vals: seq<nat>, n: nat)
    requires n <= |vals|
    ensures var r := Runs(vals, n);
      Maximal(r) && Unroll(r, |r|) == vals[..n] && (n > 0 ==> r[|r| - 1].0 == vals[n - 1])
  {
    if n > 0 {
      RunsAreMaximal(vals, n - 1);
      var r := Runs(vals, n - 1);
      OneMoreItem(vals, n);
      if Repeats(vals, n) {
        LongerRun(r);
      } else {
        NewRun(r, vals[n - 1]);
      }
    }
  }

  /** Where run `n` starts. */
  function RunStart(runs: seq<(nat, nat)>, n: nat): nat
    requires n <= |runs|
  {
    if n == 0 then 0 else RunStart(runs, n - 1) + runs[n - 1].1
  }

  /** One value line a run, and one mark behind it when the run has more than one item. */
  function Render(target: int, w: nat, runs: seq<(nat, nat)>, n: nat): seq<string>
    requires n <= |runs|
  {
    if n == 0 then []
    else Render(target, w, runs, n - 1)
         + [ValueLine(Offset(target, w, RunStart(runs, n - 1)), w, runs[n - 1].0)]
         + if runs[n - 1].1 > 1 then [DOTS] else []
  }

  lemma {:induction false} RenderPrefix(target: int, w: nat, a: seq<(nat, nat)>, b: seq<(nat, nat)>, n: nat)
    requires n <= |a| && n <= |b| && a[..n] == b[..n]
    ensures Render(target, w, a, n) == Render(target, w, b, n) && RunStart(a, n) == RunStart(b, n)
  {
    if n > 0 {
      assert a[..n - 1] == a[..n][..n - 1] && b[..n - 1] == b[..n][..n - 1];
      assert a[n - 1] == a[..n][n - 1] == b[n - 1];
      RenderPrefix(target, w, a, b, n - 1);
    }
  }

  lemma LastRunLength(vals: seq<nat>, n: nat)
    requires 0 < n <= |vals|
    ensures var r := Runs(vals, n); r != [] && r[|r| - 1].1 >= 1 && (r[|r| - 1].1 > 1 <==> Repeats(vals, n))
  {
    if n > 1 { LastRunLength(vals, n - 1); }
  }

  lemma RenderLonger(target: int, w: nat, r: seq<(nat, nat)>)
    requires r != [] && r[|r| - 1].1 >= 1
    ensures RunStart(Longer(r), |r|) == RunStart(r, |r|) + 1
    ensures Render(target, w, Longer(r), |r|) == Render(target, w, r, |r|) + if r[|r| - 1].1 == 1 then [DOTS] else []
  {
    RenderPrefix(target, w, Longer(r), r, |r| - 1);
    assert Longer(r)[|r| - 1] == (r[|r| - 1].0, r[|r| - 1].1 + 1);
  }

  lemma RenderNew(target: int, w: nat, r: seq<(nat, nat)>, v: nat)
    ensures RunStart(r + [(v, 1)], |r| + 1) == RunStart(r, |r|) + 1
    ensures Render(target, w, r + [(v, 1)], |r| + 1)
         == Render(target, w, r, |r|) + [ValueLine(Offset(target, w, RunStart(r, |r|)), w, v)]
  {
    RenderPrefix(target, w, r + [(v, 1)], r, |r|);
  }

  lemma RendersNext(target: int, w: nat, vals: seq<nat>, n: nat, r: seq<(nat, nat)>, lines: seq<string>)
    requires n < |vals| && Continues(target, w, vals, n, Render(target, w, r, |r|), lines) && RunStart(r, |r|) == n
    requires n > 0 ==> r != [] && r[|r| - 1].1 >= 1 && (r[|r| - 1].1 > 1 <==> Repeats(vals, n))
    ensures var s := if Repeats(vals, n + 1) then Longer(r) else r + [(vals[n], 1)];
      lines == Render(target, w, s, |s|) && RunStart(s, |s|) == n + 1
  {
    if Repeats(vals, n + 1) {
      RenderLonger(target, w, r);
      assert |Longer(r)| == |r|;
    } else {
      RenderNew(target, w, r, vals[n]);
    }
  }

  /** The listing is the rendering of the maximal runs: as many values as runs, a mark for each longer one. */
  lemma {:induction false} LinesRenderRuns(target: int, w: nat, vals: seq<nat>, n: nat)
    requires n <= |vals|
    ensures var r := Runs(vals, n);
      Lines(target, w, vals, n) == Render(target, w, r, |r|) && RunStart(r, |r|) == n
  {
    if n > 0 {
      LinesRenderRuns(target, w, vals, n - 1);
      if n > 1 { LastRunLength(vals, n - 1); }
      NextLine(target, w, vals, n - 1);
      RendersNext(target, w, vals, n - 1, Runs(vals, n - 1), Lines(target, w, vals, n));
    }
  }

  /** A mark always follows a value line: never two marks in a row, and none at the start. */
  lemma {:induction false} NoAdjacentMarks(target: int, w: nat, vals: seq<nat>, n: nat)
    requires n <= |vals|
    ensures var lines := Lines(target, w, vals, n);
      && (lines != [] ==> lines[0] != DOTS)
      && (forall j :: 0 < j < |lines| ==> !(lines[j] == DOTS && lines[j - 1] == DOTS))
      && (n > 0 ==> lines != [] && (lines[|lines| - 1] == DOTS <==> Repeats(vals, n)))
  {
    if n > 0 {
      NoAdjacentMarks(target, w, vals, n - 1);
      ParseValueLine(Offset(target, w, n - 1), w, vals[n - 1]);
    }
  }

  /** An item that does not repeat the one before it is on a line of its own: its offset in at least four digits,
      and its value in two digits a byte. */
  lemma {:induction false} ChangeIsListed(target: int, w: nat, vals: seq<nat>, n: nat, i: nat)
    requires i < n <= |vals| && (i == 0 || vals[i] != vals[i - 1])
    ensures "0x" + Hex.Print((target + i * w) % 0x1_0000_0000, 4) + ": 0x" + Hex.Print(vals[i], 2 * w)
         in Lines(target, w, vals, n)
  {
    if i < n - 1 {
      ChangeIsListed(target, w, vals, n - 1, i);
    } else {
      var lines := Lines(target, w, vals, n);
      assert lines[|lines| - 1] == ValueLine(Offset(target, w, i), w, vals[i]);
    }
  }

  // ----- the mapping --------------------------------------------------------

  const MINMAP := 4096

  /** Bytes from the mapped base to the end of the last item. */
  function Span(target: int, w: nat, count: nat, page: nat): int
    requires page > 0
  {
    target + count * w - Align(target, page)
  }

  /** `map_size`, an `int`. */
  function MapSize(target: int, w: nat, count: nat, page: nat): int
    requires page > 0
  {
    if Span(target, w, count, page) > MINMAP then AsInt32(Span(target, w, count, page)) else MINMAP
  }

  /** Where item `i` lies in the mapping. */
  function ItemOffset(target: int, w: nat, page: nat, i: nat): int
    requires page > 0
  {
    target + i * w - Align(target, page)
  }

  ghost predicate InMapping(target: int, w: nat, count: nat, page: nat, i: nat)
    requires page > 0
  {
    0 <= ItemOffset(target, w, page, i) && ItemOffset(target, w, page, i) + w <= MapSize(target, w, count, page)
  }

  lemma Monotone(i: nat, j: nat, w: nat)
    requires i < j
    ensures i * w + w <= j * w
  {
    assert (i + 1) * w <= j * w;
  }

  /** The mapping starts at a page boundary not above the target, and holds every item exactly when the
      span fits an `int`; otherwise the cut size misses the last item. */
  lemma MappingCovers(target: int, w: nat, count: nat, page: nat)
    requires 0 < page <= 0x8000_0000 && count > 0 && count * w < 0x8000_0000
    ensures Align(target, page) <= target && Align(target, page) % page == 0
    ensures (forall i :: 0 <= i < count ==> InMapping(target, w, count, page, i))
      <==> Span(target, w, count, page) < 0x8000_0000
  {
    AlignBounds(target, page);
    var span := Span(target, w, count, page);
    forall i | 0 <= i < count ensures 0 <= ItemOffset(target, w, page, i) <= span - w {
      Monotone(i, count, w);
      assert 0 <= i * w;
    }
    assert ItemOffset(target, w, page, count - 1) == span - w;
    if span >= 0x8000_0000 {
      CutNegative(span);
      assert !InMapping(target, w, count, page, count - 1);
    }
  }

  lemma CutNegative(span: int)
    requires 0x8000_0000 <= span < 0x1_0000_0000
    ensures AsInt32(span) < 0
  {
  }

  // ----- the accesses -------------------------------------------------------

  /** The mapped bytes may change between reads: `mapped(i)` are those that read `i` finds. */
  ghost predicate Holds(mapped: nat -> seq<byte>, size: nat) { forall i :: |mapped(i)| == size }

  /** The values of the first `n` reads of items, from `start` on. */
  function Seen(mapped: nat -> seq<byte>, size: nat, start: nat, w: nat, n: nat): (vals: seq<nat>)
    requires Holds(mapped, size) && start + n * w <= size
    ensures |vals| == n
  {
    if n == 0 then []
    else
      Monotone(n - 1, n, w);
      Seen(mapped, size, start, w, n - 1) + [LittleEndian(mapped(n - 1)[start + (n - 1) * w..start + (n - 1) * w + w])]
  }

  /** The number in the `w` bytes at distance `i * w` from the start. */
  ghost predicate IsItem(bytes: seq<byte>, start: nat, w: nat, i: nat, value: nat) {
    start + i * w + w <= |bytes| && value == LittleEndian(bytes[start + i * w..start + i * w + w])
  }

  /** Read `i` finds the `w` bytes at distance `i * w` from the start. */
  lemma {:induction false} SeenAt(mapped: nat -> seq<byte>, size: nat, start: nat, w: nat, n: nat, i: nat)
    requires Holds(mapped, size) && i < n && start + n * w <= size
    ensures IsItem(mapped(i), start, w, i, Seen(mapped, size, start, w, n)[i])
  {
    Monotone(i, n, w);
    Monotone(n - 1, n, w);
    if i < n - 1 { SeenAt(mapped, size, start, w, n - 1, i); }
  }

  lemma SeenIsListed(target: int, w: nat, count: nat, start: nat, size: nat, mapped: nat -> seq<byte>)
    requires w > 0 && Holds(mapped, size) && start + count * w <= size && count * w <= 0x1_0000_0000
    ensures var vals := Decode(target, w, count, Lines(target, w, Seen(mapped, size, start, w, count), count));
      |vals| == count && forall i: nat :: i < count ==> IsItem(mapped(i), start, w, i, vals[i])
  {
    var vals := Seen(mapped, size, start, w, count);
    ListingIsLossless(target, w, vals);
    forall k: nat | k < count ensures IsItem(mapped(k), start, w, k, vals[k]) {
      SeenAt(mapped, size, start, w, count, k);
    }
  }

  /** The loop over the items, with the previous value and the mark flag it keeps: whatever the reads found,
      the listing is that of the values found, and they can be read back from it. */
  method Dump(target: int, w: nat, count: nat, start: nat, size: nat, mapped: nat -> seq<byte>)
    returns (lines: seq<string>)
    requires w > 0 && Holds(mapped, size) && start + count * w <= size
    ensures lines == Lines(target, w, Seen(mapped, size, start, w, count), count)
    ensures count * w <= 0x1_0000_0000 ==>
      var vals := Decode(target, w, count, lines);
      && |vals| == count
      && forall i: nat :: i < count ==> IsItem(mapped(i), start, w, i, vals[i])
  {
    ghost var vals := Seen(mapped, size, start, w, count);
    var previous, dupped := 0, false;
    lines := [];
    var i := 0;
    while i < count
      invariant 0 <= i <= count
      invariant lines == Lines(target, w, vals, i)
      invariant i > 0 ==> previous == vals[i - 1] && dupped == Repeats(vals, i)
    {
      var value := ReadItem(mapped, size, start, w, i, count);
      lines, dupped := NextItemLine(target, w, i, value, previous, dupped, lines, vals);
      previous := value;
      i := i + 1;
    }
    if count * w <= 0x1_0000_0000 { SeenIsListed(target, w, count, start, size, mapped); }
  }

  /** The listing decodes to `count` values, each that of the `w` bytes at its distance from the start. */
  ghost predicate ListsItems(target: int, w: nat, count: nat, start: nat, bytes: seq<byte>, lines: seq<string>)
    requires w > 0
  {
    var vals := Decode(target, w, count, lines);
    |vals| == count && forall i: nat :: i < count ==> IsItem(bytes, start, w, i, vals[i])
  }

  /** The same on bytes that stay as they are. */
  method DumpStill(target: int, w: nat, count: nat, start: nat, bytes: seq<byte>) returns (lines: seq<string>)
    requires w > 0 && start + count * w <= |bytes| && count * w <= 0x1_0000_0000
    ensures ListsItems(target, w, count, start, bytes, lines)
  {
    lines := Dump(target, w, count, start, |bytes|, _ => bytes);
  }

  /** The lines that one item adds, and the mark flag behind it. */
  method NextItemLine(target: int, w: nat, i: nat, value: nat, previous: nat, dupped: bool, lines: seq<string>,
                      ghost vals: seq<nat>)
    returns (lines': seq<string>, dupped': bool)
    requires i < |vals| && value == vals[i] && lines == Lines(target, w, vals, i)
    requires i > 0 ==> previous == vals[i - 1] && dupped == Repeats(vals, i)
    ensures lines' == Lines(target, w, vals, i + 1) && dupped' == Repeats(vals, i + 1)
  {
    lines' := lines;
    if value != previous || i == 0 {
      lines' := lines + [ValueLine(Offset(target, w, i), w, value)];
      dupped' := false;
    } else {
      if !dupped { lines' := lines + [DOTS]; }
      dupped' := true;
    }
  }

  method ReadItem(mapped: nat -> seq<byte>, ghost size: nat, start: nat, w: nat, i: nat, ghost count: nat)
    returns (value: nat)
    requires i < count && Holds(mapped, size) && start + count * w <= size
    ensures value == Seen(mapped, size, start, w, count)[i]
  {
    SeenAt(mapped, size, start, w, count, i);
    var at := start + i * w;
    value := LittleEndian(mapped(i)[at..at + w]);
  }

  lemma Patched(before: seq<byte>, after: seq<byte>, at: nat, bytes: seq<byte>)
    requires |after| == |before| && at + |bytes| <= |before|
    requires forall j {:trigger after[j]} :: 0 <= j < |after| ==>
      after[j] == if at <= j < at + |bytes| then bytes[j - at] else before[j]
    ensures after == before[..at] + bytes + before[at + |bytes|..]
  {
  }

  /** The optional write to the last item, and its readback. */
  method WriteBack(map_base: array<byte>, at: nat, w: nat, value: nat) returns (readback: nat)
    requires at + w <= map_base.Length
    modifies map_base
    ensures map_base[..] == old(map_base[..])[..at] + Bytes(value, w) + old(map_base[..])[at + w..]
    ensures Pow256(w) > 0 && readback == value % Pow256(w)
  {
    LittleEndianOfBytes(value, w);
    var bytes := Bytes(value, w);
    forall j | 0 <= j < w {
      map_base[at + j] := bytes[j];
    }
    readback := LittleEndian(map_base[at..at + w]);
    Patched(old(map_base[..]), map_base[..], at, bytes);
    assert map_base[at..at + w] == bytes;
  }

  /** What the optional write leaves: the bytes of one item changed, and read back modulo 256^w. */
  ghost predicate Wrote(before: seq<byte>, after: seq<byte>, last: nat, w: nat,
                        writeval: Option<nat>, readback: Option<nat>) {
    && last + w <= |before| && Pow256(w) > 0
    && match writeval
       case None => after == before && readback == None
       case Some(v) =>
         after == before[..last] + Bytes(v, w) + before[last + w..] && readback == Some(v % Pow256(w))
  }

  method WriteLast(map_base: array<byte>, at: nat, w: nat, writeval: Option<nat>) returns (readback: Option<nat>)
    requires at + w <= map_base.Length
    modifies map_base
    ensures Wrote(old(map_base[..]), map_base[..], at, w, writeval, readback)
  {
    match writeval
    case None =>
      PowPositive(w);
      readback := None;
    case Some(v) =>
      var r := WriteBack(map_base, at, w, v);
      readback := Some(r);
  }

  /** Where the items lie in the mapping when the span fits an `int`. */
  lemma Placement(target: int, w: nat, count: nat, page: nat)
    requires count > 0 && 0 < page <= 0x8000_0000 && count * w < 0x8000_0000
    requires Span(target, w, count, page) < 0x8000_0000
    ensures target - Align(target, page) == target % page
    ensures target % page + count * w <= MapSize(target, w, count, page)
    ensures (count - 1) * w >= 0 && (count - 1) * w + w == count * w
  {
    MappingCovers(target, w, count, page);
    assert InMapping(target, w, count, page, count - 1);
    Monotone(count - 1, count, w);
  }

  /** A whole run on plain memory: the listing decodes to the items that were there, and a write changes
      the bytes of the last item only and reads back modulo 256^w. */
  method Access(target: int, w: nat, count: nat, page: nat, map_base: array<byte>, writeval: Option<nat>)
    returns (lines: seq<string>, readback: Option<nat>)
    requires w > 0 && count > 0 && 0 < page <= 0x8000_0000
    requires Span(target, w, count, page) < 0x8000_0000 && count * w < 0x8000_0000
    requires map_base.Length == MapSize(target, w, count, page)
    modifies map_base
    ensures ListsItems(target, w, count, target % page, old(map_base[..]), lines)
    ensures var last := target % page + (count - 1) * w;
      last >= 0 && Wrote(old(map_base[..]), map_base[..], last, w, writeval, readback)
  {
    Placement(target, w, count, page);
    var start := target - Align(target, page);
    lines := DumpStill(target, w, count, start, map_base[..]);
    var last := start + (count - 1) * w;
    readback := WriteLast(map_base, last, w, writeval);
  }

  /** The program after its arguments are read: an unknown access letter ends it with status 2. */
  method Command(target: int, access: char, count: nat, page: nat, map_base: array<byte>, writeval: Option<nat>)
    returns (status: int, lines: seq<string>, readback: Option<nat>)
    requires count > 0 && 0 < page <= 0x8000_0000
    requires TypeWidth(access).Some? ==> var w := TypeWidth(access).value;
      && Span(target, w, count, page) < 0x8000_0000 && count * w < 0x8000_0000
      && map_base.Length == MapSize(target, w, count, page)
    modifies map_base
    ensures TypeWidth(access).None? ==> status == 2 && lines == [] && map_base[..] == old(map_base[..])
    ensures TypeWidth(access).Some? ==> status == 0
    ensures TypeWidth(access).Some? ==> var w := TypeWidth(access).value;
      w > 0 && ListsItems(target, w, count, target % page, old(map_base[..]), lines)
    ensures TypeWidth(access).Some? ==> var w := TypeWidth(access).value;
      var last := target % page + (count - 1) * w;
      last >= 0 && Wrote(old(map_base[..]), map_base[..], last, w, writeval, readback)
  {
    match TypeWidth(access)
    case None =>
      return 2, [], None;
    case Some(w) =>
      lines, readback := Access(target, w, count, page, map_base, writeval);
      status := 0;
  }
}
