/** The `dram` character device: reads that stop at a page end, and bounded seeks. */
module Dram {
  import opened Words

  const EFAULT := -14
  const EINVAL := -22

  /** Installed memory as the driver sees it; `page` is PAGE_SIZE and `size` is dram_size. */
  datatype Device = Device(mem: Memory, size: nat, page: nat) {

    predicate Valid() { 0 < page < 0x8000_0000 && size + page < 0x8000_0000_0000_0000 }

    /** The byte behind file position `p`: the page number is held in an `int`. */
    function Address(p: int): int
      requires Valid()
    {
      AsInt32(p / page) * page + p % page
    }

    function ByteAt(p: int): byte
      requires Valid()
    {
      mem(Address(p))
    }

    /** The `n` bytes behind file positions `p` and up. */
    function View(p: int, n: nat): (v: seq<byte>)
      requires Valid()
      ensures |v| == n && forall i :: 0 <= i < n ==> v[i] == ByteAt(p + i)
    {
      if n == 0 then [] else
        var v := View(p, n - 1) + [ByteAt(p + n - 1)];
        v
    }

    /** No read starts at or beyond `size`, but the last one may run to the end of its page. */
    function Top(): (t: nat)
      requires Valid()
      ensures size <= t < size + page && t % page == 0
    {
      RoundUpBounds(size, page);
      RoundUp(size, page)
    }
  }

  /** What one system call leaves: its result, the file position, the bytes put in the caller's buffer. */
  datatype Outcome = Outcome(ret: int, pos: nat, data: seq<byte>)

  /** `my_read` when `copy_to_user` would manage `copied` bytes. */
  function ReadOutcome(d: Device, pos: nat, count: nat, copied: nat): Outcome
    requires d.Valid()
  {
    if pos >= d.size then Outcome(0, pos, [])
    else
      var n := Min(count, d.page - pos % d.page);
      if copied < n then Outcome(EFAULT, pos, d.View(pos, copied))
      else Outcome(n, pos + n, d.View(pos, n))
  }

  /** `my_llseek` on unbounded integers. */
  function SeekTarget(d: Device, pos: nat, offset: int, whence: int): int {
    match whence
    case 0 => offset
    case 1 => pos + offset
    case 2 => d.size + offset
    case _ => -1
  }

  function SeekOutcome(d: Device, pos: nat, offset: int, whence: int): Outcome {
    var t := SeekTarget(d, pos, offset, whence);
    if 0 <= t <= d.size then Outcome(t, t, []) else Outcome(EINVAL, pos, [])
  }

  /** Inside one page consecutive positions are consecutive addresses. */
  lemma SamePage(d: Device, p: nat, i: nat)
    requires d.Valid() && p % d.page + i < d.page
    ensures d.Address(p + i) == d.Address(p) + i
  {
    DivModUnique(p + i, d.page, p / d.page, p % d.page + i);
  }

  lemma PageBytes(d: Device, p: nat, n: nat)
    requires d.Valid() && p % d.page + n <= d.page
    ensures forall i {:trigger d.View(p, n)[i]} :: 0 <= i < n ==> d.View(p, n)[i] == d.mem(d.Address(p) + i)
  {
    forall i | 0 <= i < n ensures d.View(p, n)[i] == d.mem(d.Address(p) + i) {
      SamePage(d, p, i);
    }
  }

  /** The device shows flat memory at `p` exactly when the page number of `p` fits an `int`. */
  lemma FlatIff(d: Device, p: nat)
    requires d.Valid()
    ensures d.Address(p) == p <==> p < 0x8000_0000 * d.page
  {
    var q, r := p / d.page, p % d.page;
    assert p == q * d.page + r;
    Below(q, r, d.page);
    SameProduct(AsInt32(q), q, d.page);
    Truncated(q);
  }

  lemma Truncated(q: nat)
    ensures AsInt32(q) == q <==> q < 0x8000_0000
  {
  }

  lemma SameProduct(a: int, b: int, d: nat)
    requires d > 0
    ensures a * d == b * d <==> a == b
  {
    assert (a - b) * d == a * d - b * d;
    ProductGap(a - b, d);
  }

  lemma Below(q: nat, r: nat, d: nat)
    requires r < d
    ensures q < 0x8000_0000 <==> q * d + r < 0x8000_0000 * d
  {
    if q < 0x8000_0000 {
      assert (q + 1) * d <= 0x8000_0000 * d;
    } else {
      assert q * d >= 0x8000_0000 * d;
    }
  }

  /** When all page numbers fit an `int`, the device view is the flat memory. */
  lemma ViewIsFlat(d: Device, p: nat, n: nat)
    requires d.Valid() && p + n <= 0x8000_0000 * d.page
    ensures forall i {:trigger d.View(p, n)[i]} :: 0 <= i < n ==> d.View(p, n)[i] == d.mem(p + i)
  {
    forall i | 0 <= i < n ensures d.View(p, n)[i] == d.mem(p + i) {
      FlatIff(d, p + i);
    }
  }

  /** A read that starts below `size` ends at or below `Top`, and never beyond its page. */
  lemma ReadStaysBelowTop(d: Device, pos: nat, count: nat, copied: nat)
    requires d.Valid() && pos <= d.Top()
    ensures var o := ReadOutcome(d, pos, count, copied);
      && pos <= o.pos <= d.Top()
      && (o.pos > pos && o.ret < count ==> o.pos % d.page == 0)
  {
    if pos < d.size {
      NextPage(pos, d.page, d.Top());
    }
  }

  /** The page of `p` ends at a multiple of `page`, not above any multiple that is above `p`. */
  lemma NextPage(p: nat, page: nat, top: nat)
    requires page > 0 && p < top && top % page == 0
    ensures p + (page - p % page) <= top
    ensures (p + (page - p % page)) % page == 0
  {
    var q, r := p / page, p % page;
    var end := p + (page - r);
    assert p == q * page + r && end == (q + 1) * page;
    DivModUnique(end, page, q + 1, 0);
    if top < end {
      assert (end - page) % page == 0 by { DivModUnique(end - page, page, q, 0); }
      MultiplesApart(top, end - page, page);
      assert false;
    }
  }

  // ----- whole runs ---------------------------------------------------------

  /** A call on the open file; `copied` is what the user copy of a read manages. */
  datatype Call = Seek(offset: int, whence: int) | Read(count: nat, copied: nat)

  function Perform(d: Device, pos: nat, c: Call): Outcome
    requires d.Valid()
  {
    match c
    case Seek(offset, whence) => SeekOutcome(d, pos, offset, whence)
    case Read(count, copied) => ReadOutcome(d, pos, count, copied)
  }

  function PosAfter(d: Device, pos: nat, calls: seq<Call>): nat
    requires d.Valid()
    decreases calls
  {
    if calls == [] then pos else PosAfter(d, Perform(d, pos, calls[0]).pos, calls[1..])
  }

  /** Bytes handed over by the successful reads, in order. */
  function Collected(d: Device, pos: nat, calls: seq<Call>): seq<byte>
    requires d.Valid()
    decreases calls
  {
    if calls == [] then []
    else
      var o := Perform(d, pos, calls[0]);
      (if o.ret > 0 then o.data else []) + Collected(d, o.pos, calls[1..])
  }

  /** Over any calls the position stays between 0 and dram_size rounded up to a page. */
  lemma {:induction false} PositionBound(d: Device, pos: nat, calls: seq<Call>)
    requires d.Valid() && pos <= d.Top()
    ensures PosAfter(d, pos, calls) <= d.Top()
    decreases calls
  {
    if calls != [] {
      if calls[0].Read? {
        ReadStaysBelowTop(d, pos, calls[0].count, calls[0].copied);
      }
      PositionBound(d, Perform(d, pos, calls[0]).pos, calls[1..]);
    }
  }

  /** `data` is exactly what the device shows from `p` up to `end`. */
  ghost predicate IsSlice(d: Device, p: nat, end: nat, data: seq<byte>)
    requires d.Valid()
  {
    p <= end && data == d.View(p, end - p)
  }

  /** Consecutive reads, faulting or not, deliver exactly the slice the position moved over. */
  lemma {:induction false} ReadsConcatenate(d: Device, pos: nat, calls: seq<Call>)
    requires d.Valid() && pos <= d.Top()
    requires forall i :: 0 <= i < |calls| ==> calls[i].Read?
    ensures IsSlice(d, pos, PosAfter(d, pos, calls), Collected(d, pos, calls))
    decreases calls
  {
    if calls == [] {
    } else {
      var o := Perform(d, pos, calls[0]);
      ReadStaysBelowTop(d, pos, calls[0].count, calls[0].copied);
      ReadsConcatenate(d, o.pos, calls[1..]);
      SlicesJoin(d, pos, o.pos, PosAfter(d, o.pos, calls[1..]),
                 if o.ret > 0 then o.data else [], Collected(d, o.pos, calls[1..]));
    }
  }

  lemma SlicesJoin(d: Device, p: nat, mid: nat, end: nat, a: seq<byte>, b: seq<byte>)
    requires d.Valid() && IsSlice(d, p, mid, a) && IsSlice(d, mid, end, b)
    ensures IsSlice(d, p, end, a + b)
  {
    ViewSplit(d, p, mid - p, end - mid);
  }

  lemma ViewSplit(d: Device, p: nat, a: nat, b: nat)
    requires d.Valid()
    ensures d.View(p, a + b) == d.View(p, a) + d.View(p + a, b)
  {
    var w := d.View(p, a) + d.View(p + a, b);
    forall i | a <= i < a + b ensures w[i] == d.ByteAt(p + i) {
      assert d.View(p + a, b)[i - a] == d.ByteAt(p + a + (i - a));
    }
    assert d.View(p, a + b) == w;
  }

  /** Within one wrap, `long long` arithmetic goes negative instead of above 2^63. */
  lemma Wrapped(n: int)
    requires -0x8000_0000_0000_0000 <= n < 0x1_0000_0000_0000_0000
    ensures AsInt64(n) == if n < 0x8000_0000_0000_0000 then n else n - 0x1_0000_0000_0000_0000
  {
  }

  /** The bytes of `after` from `at` on are the `n` behind file position `p`, all others as they were. */
  ghost predicate Copied(d: Device, p: nat, before: seq<byte>, after: seq<byte>, at: nat, n: nat)
    requires d.Valid() && at + n <= |before|
  {
    && |after| == |before|
    && forall i :: 0 <= i < |after| ==> after[i] == if at <= i < at + n then d.ByteAt(p + (i - at)) else before[i]
  }

  lemma CopiedIsView(d: Device, p: nat, before: seq<byte>, after: seq<byte>, at: nat, n: nat)
    requires d.Valid() && at + n <= |before| && Copied(d, p, before, after, at, n)
    ensures after[at..at + n] == d.View(p, n)
  {
  }

  // ----- the driver ---------------------------------------------------------

  /** An open file on the device. */
  class DramFile {
    const d: Device
    /** How many bytes each successive `copy_to_user` would manage. */
    const copies: nat -> nat
    var fpos: nat
    /** The user copies made so far. */
    var calls: nat

    ghost predicate Valid()
      reads this
    {
      d.Valid() && fpos <= d.Top()
    }

    constructor (d: Device, copies: nat -> nat)
      requires d.Valid()
      ensures Valid() && this.d == d && this.copies == copies && fpos == 0 && calls == 0
    {
      this.d := d;
      this.copies := copies;
      fpos, calls := 0, 0;
    }

    /** The user copy of a run of consecutive physical bytes. */
    method CopyToUser(buf: array<byte>, at: nat, from: int, n: nat)
      requires at + n <= buf.Length
      modifies buf
      ensures forall i :: at <= i < at + n ==> buf[i] == d.mem(from + (i - at))
      ensures forall i :: 0 <= i < at || at + n <= i < buf.Length ==> buf[i] == old(buf[i])
    {
      forall i | at <= i < at + n {
        buf[i] := d.mem(from + (i - at));
      }
    }

    /** The part of `my_read` that handles the page of the position: how much is asked for, and what is copied. */
    method Transfer(buf: array<byte>, at: nat, count: nat) returns (n: nat, more: bool)
      requires Valid() && fpos < d.size && at + count <= buf.Length
      modifies this`calls, buf
      ensures n == Min(count, d.page - fpos % d.page) && calls == old(calls) + 1
      ensures more <==> copies(old(calls)) < n
      ensures Copied(d, fpos, old(buf[..]), buf[..], at, Min(copies(old(calls)), n))
    {
      var pageNumber := AsInt32(fpos / d.page);
      var indent := fpos % d.page;
      n := count;
      if indent + n > d.page { n := d.page - indent; }
      var copied := Min(copies(calls), n);
      calls := calls + 1;
      PageBytes(d, fpos, copied);
      CopyToUser(buf, at, pageNumber * d.page + indent, copied);
      forall i | at <= i < at + copied ensures buf[i] == d.ByteAt(fpos + (i - at)) {
        assert d.View(fpos, copied)[i - at] == d.mem(d.Address(fpos) + (i - at));
      }
      more := copied < n;
    }

    /** `my_read`: fills `buf` from `at`; after a fault the bytes already copied stay there. */
    method Read(buf: array<byte>, at: nat, count: nat) returns (ret: int)
      requires Valid() && at + count <= buf.Length
      modifies this, buf
      ensures Valid()
      ensures calls == old(calls) + if old(fpos) < d.size then 1 else 0
      ensures var n, copied := Min(count, d.page - old(fpos) % d.page), copies(old(calls));
        if old(fpos) >= d.size then ret == 0 && fpos == old(fpos)
        else if copied < n then ret == -14 && fpos == old(fpos)
        else ret == n && fpos == old(fpos) + n
      ensures var n, copied := Min(count, d.page - old(fpos) % d.page), copies(old(calls));
        Copied(d, old(fpos), old(buf[..]), buf[..], at, if old(fpos) < d.size then Min(copied, n) else 0)
      ensures var o := ReadOutcome(d, old(fpos), count, copies(old(calls)));
        ret == o.ret && fpos == o.pos && |o.data| <= count && buf[at..at + |o.data|] == o.data
    {
      ReadStaysBelowTop(d, fpos, count, copies(calls));
      if fpos >= d.size { return 0; }
      var n, more := Transfer(buf, at, count);
      CopiedIsView(d, fpos, old(buf[..]), buf[..], at, Min(copies(old(calls)), n));
      if more { return EFAULT; }
      fpos := fpos + n;
      return n;
    }

    /** `my_llseek`, in 64-bit arithmetic: a sum that wraps is rejected like one that is out of range. */
    method Llseek(offset: int, whence: int) returns (ret: int)
      requires Valid()
      requires -0x8000_0000_0000_0000 <= offset < 0x8000_0000_0000_0000
      modifies this`fpos
      ensures Valid()
      ensures ret == SeekOutcome(d, old(fpos), offset, whence).ret
      ensures fpos == SeekOutcome(d, old(fpos), offset, whence).pos
      ensures if whence == 0 && 0 <= offset <= d.size then ret == fpos == offset
        else if whence == 1 && 0 <= old(fpos) + offset <= d.size then ret == fpos == old(fpos) + offset
        else if whence == 2 && 0 <= d.size + offset <= d.size then ret == fpos == d.size + offset
        else ret == -22 && fpos == old(fpos)
    {
      Wrapped(fpos + offset);
      Wrapped(d.size + offset);
      var newpos := -1;
      match whence {
        case 0 => newpos := offset;
        case 1 => newpos := AsInt64(fpos + offset);
        case 2 => newpos := AsInt64(d.size + offset);
        case _ =>
      }
      if newpos < 0 || newpos > d.size { return EINVAL; }
      fpos := newpos;
      return newpos;
    }
  }
}
