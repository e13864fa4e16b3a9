/** Slotted pages of a heap table: slots grow up behind the header, tuples grow down from the end of the page. */
module HeapPage {
  import opened Bytes
  import opened Buffers

  const HEADER_SIZE: nat := 12
  const SLOT_SIZE: nat := 9

  type Row = r: seq<byte> | |r| > 0 witness [0]

  /** Where a tuple lies in the page. */
  datatype Slot = Slot(offset: nat, len: nat)

  function Total(rows: seq<Row>): nat {
    if |rows| == 0 then 0 else Total(rows[..|rows| - 1]) + |rows[|rows| - 1]|
  }

  /** The rows fit a page together with their slots. */
  predicate FitsPage(rows: seq<Row>) {
    HEADER_SIZE + SLOT_SIZE * |rows| + Total(rows) <= PAGE_SIZE
  }

  /** The tuple is longer than what lies before the tuples on the page: the offset for it would be negative. */
  predicate Underflows(rows: seq<Row>, tuple: Row) {
    |tuple| > PAGE_SIZE - Total(rows)
  }

  /** What an addition to a page comes to. `Underflow` stands for the failed subtraction of unsigned integers. */
  datatype Outcome = Done(at: nat) | Full | Underflow

  /** The tuples at the end of the page: the last row comes first. */
  function Tuples(rows: seq<Row>): (s: seq<byte>)
    ensures |s| == Total(rows)
  {
    if |rows| == 0 then [] else rows[|rows| - 1] + Tuples(rows[..|rows| - 1])
  }

  function Slots(rows: seq<Row>): (ss: seq<Slot>)
    requires Total(rows) <= PAGE_SIZE
    ensures |ss| == |rows|
  {
    if |rows| == 0 then []
    else Slots(rows[..|rows| - 1]) + [Slot(PAGE_SIZE - Total(rows), |rows[|rows| - 1]|)]
  }

  /** Offset, length and a zero byte for a tuple that is not deleted. */
  function SlotBytes(s: Slot): (b: seq<byte>)
    ensures |b| == SLOT_SIZE
  {
    ToBE(s.offset, 4) + ToBE(s.len, 4) + [0]
  }

  function SlotsBytes(ss: seq<Slot>): (b: seq<byte>)
    ensures |b| == SLOT_SIZE * |ss|
  {
    if |ss| == 0 then [] else SlotsBytes(ss[..|ss| - 1]) + SlotBytes(ss[|ss| - 1])
  }

  /** Next page, number of tuples, and no deleted tuples. */
  function Header(next: int, n: nat): (b: seq<byte>)
    requires Fits(next, Pow256(4))
    ensures |b| == HEADER_SIZE
  {
    Signed(next, 4) + ToBE(n, 4) + ToBE(0, 4)
  }

  /** The page that holds `rows` and points to page `next`; what lies between slots and tuples is zero. */
  ghost function PageOf(next: int, rows: seq<Row>): PageBuf
    requires Fits(next, Pow256(4)) && FitsPage(rows)
  {
    Header(next, |rows|) + SlotsBytes(Slots(rows)) + Zeros(PAGE_SIZE - HEADER_SIZE - SLOT_SIZE * |rows| - Total(rows)) + Tuples(rows)
  }

  /** A page of zeros holds no rows and points to page 0. */
  lemma {:induction false} BlankIsEmpty()
    ensures Fits(0, Pow256(4)) && FitsPage([]) && PageOf(0, []) == Blank()
  {
    ZeroBytes(4);
    assert Header(0, 0) == Zeros(4) + Zeros(4) + Zeros(4);
  }

  lemma {:induction false} ZeroBytes(w: nat)
    ensures ToBE(0, w) == Zeros(w)
  {
    if w > 0 {
      ZeroBytes(w - 1);
      assert 0 / 256 == 0;
    }
  }

  // ---------------------------------------------------------------- slots

  lemma {:induction false} TotalPrefix(rows: seq<Row>, i: nat)
    requires i <= |rows|
    ensures Total(rows[..i]) <= Total(rows)
    decreases |rows|
  {
    if i < |rows| {
      TotalPrefix(rows[..|rows| - 1], i);
      assert rows[..|rows| - 1][..i] == rows[..i];
    } else {
      assert rows[..i] == rows;
    }
  }

  /** Tuple `i` lies where its slot says. */
  lemma {:induction false} SlotHolds(rows: seq<Row>, i: nat)
    requires i < |rows| && Total(rows) <= PAGE_SIZE
    ensures Total(rows[..i + 1]) <= Total(rows)
    ensures Slots(rows)[i] == Slot(PAGE_SIZE - Total(rows[..i + 1]), |rows[i]|)
    ensures var at := Total(rows) - Total(rows[..i + 1]);
            0 <= at && at + |rows[i]| <= Total(rows) && Tuples(rows)[at..at + |rows[i]|] == rows[i]
    decreases |rows|
  {
    var n := |rows| - 1;
    LastRow(rows);
    if i < n {
      assert rows[..n][..i + 1] == rows[..i + 1] && rows[..n][i] == rows[i];
      hide Slots, Tuples, Total;
      SlotHolds(rows[..n], i);
      Behind(rows[n], Tuples(rows[..n]), Total(rows[..n]) - Total(rows[..i + 1]), |rows[i]|);
    } else {
      assert rows[..i + 1] == rows;
    }
  }

  lemma {:induction false} LastRow(rows: seq<Row>)
    requires |rows| > 0 && Total(rows) <= PAGE_SIZE
    ensures var n := |rows| - 1;
            && Total(rows) == Total(rows[..n]) + |rows[n]|
            && Tuples(rows) == rows[n] + Tuples(rows[..n])
            && Slots(rows) == Slots(rows[..n]) + [Slot(PAGE_SIZE - Total(rows), |rows[n]|)]
  {
  }

  lemma {:induction false} SlotSmall(rows: seq<Row>, i: nat)
    requires i < |rows| && Total(rows) <= PAGE_SIZE
    ensures Slots(rows)[i].offset <= PAGE_SIZE && Slots(rows)[i].len <= PAGE_SIZE
  {
    SlotHolds(rows, i);
  }

  lemma {:induction false} Behind(x: seq<byte>, s: seq<byte>, at: int, n: nat)
    requires 0 <= at && at + n <= |s|
    ensures (x + s)[|x| + at..|x| + at + n] == s[at..at + n]
  {
  }

  lemma {:induction false} SlotsBytesAt(ss: seq<Slot>, i: nat)
    requires i < |ss|
    ensures SLOT_SIZE * i + SLOT_SIZE <= SLOT_SIZE * |ss|
    ensures SlotsBytes(ss)[SLOT_SIZE * i..SLOT_SIZE * i + SLOT_SIZE] == SlotBytes(ss[i])
    decreases |ss|
  {
    var n := |ss| - 1;
    if i < n {
      SlotsBytesAt(ss[..n], i);
      hide SlotBytes;
    }
  }

  function ReadSlot(b: seq<byte>): Slot
    requires |b| == SLOT_SIZE
  {
    Slot(FromBE(b[..4]), FromBE(b[4..8]))
  }

  lemma {:induction false} SlotRoundTrip(s: Slot)
    requires s.offset <= PAGE_SIZE && s.len <= PAGE_SIZE
    ensures ReadSlot(SlotBytes(s)) == s
  {
    Widths();
    FromTo(s.offset, 4);
    FromTo(s.len, 4);
    assert SlotBytes(s)[..4] == ToBE(s.offset, 4) && SlotBytes(s)[4..8] == ToBE(s.len, 4);
  }

  /** The parts of a page. */
  lemma {:induction false} PageParts(next: int, rows: seq<Row>)
    requires Fits(next, Pow256(4)) && FitsPage(rows)
    ensures var p := PageOf(next, rows);
            && Unsigned(p[0..4]) == next && FromBE(p[4..8]) == |rows| && FromBE(p[8..12]) == 0
            && p[HEADER_SIZE..HEADER_SIZE + SLOT_SIZE * |rows|] == SlotsBytes(Slots(rows))
            && p[PAGE_SIZE - Total(rows)..] == Tuples(rows)
  {
    Widths();
    SignedRoundTrip(next, 4);
    FromTo(|rows|, 4);
    FromTo(0, 4);
    var h := Header(next, |rows|);
    assert h[0..4] == Signed(next, 4) && h[4..8] == ToBE(|rows|, 4) && h[8..12] == ToBE(0, 4);
    hide Header, Signed, Unsigned, ToBE, FromBE, SlotsBytes, Tuples, Slots, Pow256;
    Split(h, SlotsBytes(Slots(rows)), Zeros(PAGE_SIZE - HEADER_SIZE - SLOT_SIZE * |rows| - Total(rows)), Tuples(rows));
  }

  lemma {:induction false} Split(h: seq<byte>, s: seq<byte>, z: seq<byte>, t: seq<byte>)
    requires |h| == HEADER_SIZE
    ensures var p := h + s + z + t;
            && p[0..4] == h[0..4] && p[4..8] == h[4..8] && p[8..12] == h[8..12]
            && p[HEADER_SIZE..HEADER_SIZE + |s|] == s && p[|p| - |t|..] == t
  {
  }

  // ---------------------------------------------------------------- a page in memory

  class Node {
    const page: array<byte>
    var nextPageId: int
    var slots: seq<Slot>

    /** The rows on the page. */
    ghost var rows: seq<Row>

    ghost predicate Valid()
      reads this, page
    {
      && page.Length == PAGE_SIZE
      && FitsPage(rows) && slots == Slots(rows) && Fits(nextPageId, Pow256(4))
      && page[PAGE_SIZE - Total(rows)..] == Tuples(rows)
    }

    constructor (buf: PageBuf)
      ensures fresh(page) && page[..] == buf && slots == [] && rows == []
    {
      page := new byte[PAGE_SIZE](i requires 0 <= i < PAGE_SIZE => buf[i]);
      nextPageId, slots, rows := 0, [], [];
    }

    /** Decode a page. */
    static method From(buf: PageBuf, ghost next: int, ghost rows: seq<Row>) returns (node: Node)
      requires Fits(next, Pow256(4)) && FitsPage(rows) && buf == PageOf(next, rows)
      ensures fresh(node) && fresh(node.page) && node.Valid()
      ensures node.nextPageId == next && node.rows == rows
    {
      PageParts(next, rows);
      hide PageOf, Slots, Tuples, SlotBytes, SlotsBytes, ReadSlot;
      var slots := ReadSlots(buf, rows);
      node := new Node(buf);
      node.nextPageId := Unsigned(buf[0..4]);
      node.rows := rows;
      node.slots := slots;
      assert node.page[PAGE_SIZE - Total(rows)..] == buf[PAGE_SIZE - Total(rows)..];
    }

    static method ReadSlots(buf: PageBuf, ghost rows: seq<Row>) returns (slots: seq<Slot>)
      requires FitsPage(rows) && FromBE(buf[4..8]) == |rows|
      requires buf[HEADER_SIZE..HEADER_SIZE + SLOT_SIZE * |rows|] == SlotsBytes(Slots(rows))
      ensures slots == Slots(rows)
    {
      hide Slots, SlotBytes, SlotsBytes, ReadSlot;
      var rem, from := FromBE(buf[4..8]), HEADER_SIZE;
      slots := [];
      while rem > 0
        invariant 0 <= rem <= |rows| && from == HEADER_SIZE + SLOT_SIZE * (|rows| - rem)
        invariant slots == Slots(rows)[..|rows| - rem]
      {
        SlotDecoded(buf, rows, |rows| - rem, from);
        slots := slots + [ReadSlot(buf[from..from + SLOT_SIZE])];
        from := from + SLOT_SIZE;
        rem := rem - 1;
      }
    }

    static lemma {:induction false} SlotDecoded(buf: PageBuf, rows: seq<Row>, i: nat, from: nat)
      requires i < |rows| && FitsPage(rows) && from == HEADER_SIZE + SLOT_SIZE * i
      requires buf[HEADER_SIZE..HEADER_SIZE + SLOT_SIZE * |rows|] == SlotsBytes(Slots(rows))
      ensures from + SLOT_SIZE <= PAGE_SIZE && ReadSlot(buf[from..from + SLOT_SIZE]) == Slots(rows)[i]
    {
      SlotSmall(rows, i);
      assert |SlotsBytes(Slots(rows))| == SLOT_SIZE * |rows|;
      hide SlotsBytes, SlotBytes, ReadSlot, Slots;
      SlotsBytesAt(Slots(rows), i);
      SlotRoundTrip(Slots(rows)[i]);
      Inside(buf, HEADER_SIZE, SlotsBytes(Slots(rows)), SLOT_SIZE * i, SLOT_SIZE);
    }

    /** Where the next tuple goes: right before the tuples on the page, unless it would run into the slots. */
    method NextTupleOffset(tuple: Row) returns (r: Outcome)
      requires Valid()
      ensures r == if Underflows(rows, tuple) then Underflow
                   else if FitsPage(rows + [tuple]) then Done(PAGE_SIZE - Total(rows + [tuple])) else Full
    {
      assert (rows + [tuple])[..|rows|] == rows;
      var offset := if slots == [] then PAGE_SIZE else slots[|slots| - 1].offset;
      if offset < |tuple| {
        return Underflow;
      }
      var tupleOffset := offset - |tuple|;
      var size := HEADER_SIZE + SLOT_SIZE * (|slots| + 1);
      if tupleOffset < size {
        return Full;
      }
      r := Done(tupleOffset);
    }

    /** Add a row; its slot number is the number of rows before it. */
    method Insert(tuple: Row) returns (r: Outcome)
      requires Valid()
      modifies this, page
      ensures Valid() && nextPageId == old(nextPageId)
      ensures r == if Underflows(old(rows), tuple) then Underflow
                   else if FitsPage(old(rows) + [tuple]) then Done(|old(rows)|) else Full
      ensures rows == if r.Done? then old(rows) + [tuple] else old(rows)
    {
      var offset := NextTupleOffset(tuple);
      if !offset.Done? {
        return offset;
      }
      ghost var was, after := page[..], rows + [tuple];
      assert after[..|rows|] == rows;
      LastRow(after);
      assert was[PAGE_SIZE - Total(rows)..] == Tuples(rows);
      hide Slots, Tuples, SlotBytes, SlotsBytes;
      r := Done(|slots|);
      slots := slots + [Slot(offset.at, |tuple|)];
      CopyInto(page, offset.at, tuple);
      rows := after;
      PutBefore(was, offset.at, tuple);
    }

    method Len() returns (n: nat)
      requires Valid()
      ensures n == |rows|
    {
      n := |slots|;
    }

    /** The row with a slot number. */
    method Get(slot: nat) returns (tuple: Row)
      requires Valid() && slot < |rows|
      ensures tuple == rows[slot]
    {
      SlotHolds(rows, slot);
      var s := slots[slot];
      ghost var t := PAGE_SIZE - Total(rows);
      assert page[s.offset..s.offset + s.len] == page[t..][s.offset - t..s.offset - t + s.len];
      tuple := page[s.offset..s.offset + s.len];
    }

    /** Where the tuples on the page start, and their bytes as they lie. */
    method TuplesOnPage() returns (offset: nat, tuples: seq<byte>)
      requires Valid()
      ensures FitsPage(rows) && Fits(nextPageId, Pow256(4)) && slots == Slots(rows)
      ensures offset == PAGE_SIZE - Total(rows) && tuples == Tuples(rows) && (slots != [] ==> offset < PAGE_SIZE)
    {
      LastOffset(rows);
      hide Slots, Tuples;
      offset := if slots == [] then PAGE_SIZE else slots[|slots| - 1].offset;
      tuples := page[offset..];
    }

    /** Encode the page: header and slots anew, tuples as they lie. */
    method ToPage() returns (buf: PageBuf)
      requires Valid()
      ensures FitsPage(rows) && Fits(nextPageId, Pow256(4)) && buf == PageOf(nextPageId, rows)
    {
      hide Node.Valid, PageOf, Slots, Tuples, SlotsBytes, Header, Zeros, SlotBytes, Patched, FitsPage, Total;
      var offset, tuples := TuplesOnPage();
      PageAssembled(nextPageId, rows);
      var ret := BlankBuffer();
      WriteHeaderAndSlots(ret);
      if slots == [] {
        return ret[..];
      }
      assert offset < PAGE_SIZE;
      CopyInto(ret, offset, tuples);
      buf := ret[..];
    }

    method WriteHeaderAndSlots(ret: array<byte>)
      requires Valid() && ret.Length == PAGE_SIZE && ret[..] == Zeros(PAGE_SIZE)
      modifies ret
      ensures ret[..] == Header(nextPageId, |slots|) + SlotsBytes(slots) + Zeros(PAGE_SIZE - HEADER_SIZE - SLOT_SIZE * |slots|)
    {
      hide Slots, Tuples, SlotBytes, SlotsBytes, Signed, ToBE, Header;
      WriteHeader(ret, nextPageId, |slots|);
      var i, from := 0, HEADER_SIZE;
      assert SlotsBytes(slots[..0]) == [] by { NoSlots(slots); }
      ghost var h := Header(nextPageId, |slots|);
      assert h + [] == h;
      while i < |slots|
        invariant 0 <= i <= |slots| && from == HEADER_SIZE + SLOT_SIZE * i
        invariant ret[..] == h + SlotsBytes(slots[..i]) + Zeros(PAGE_SIZE - from)
      {
        SlotsNext(slots, i);
        Fill(ret, h + SlotsBytes(slots[..i]), from, SlotBytes(slots[i]));
        assert (h + SlotsBytes(slots[..i])) + SlotBytes(slots[i]) == h + SlotsBytes(slots[..i + 1]);
        i := i + 1;
        from := from + SLOT_SIZE;
      }
      assert slots[..i] == slots;
    }

    method WriteHeader(ret: array<byte>, next: int, n: nat)
      requires ret.Length == PAGE_SIZE && ret[..] == Zeros(PAGE_SIZE) && Fits(next, Pow256(4))
      modifies ret
      ensures ret[..] == Header(next, n) + Zeros(PAGE_SIZE - HEADER_SIZE)
    {
      var a, b, c := Signed(next, 4), ToBE(n, 4), ToBE(0, 4);
      assert Header(next, n) == a + b + c;
      hide Header, Signed, ToBE;
      assert ret[..] == [] + Zeros(PAGE_SIZE);
      Fill(ret, [], 0, a);
      assert [] + a == a;
      Fill(ret, a, 4, b);
      Fill(ret, a + b, 8, c);
    }
  }

  /** Header and slots of a page with the tuples put in. */
  lemma {:induction false} PageAssembled(next: int, rows: seq<Row>)
    requires Fits(next, Pow256(4)) && FitsPage(rows)
    ensures var x := Header(next, |rows|) + SlotsBytes(Slots(rows)) + Zeros(PAGE_SIZE - HEADER_SIZE - SLOT_SIZE * |rows|);
            && Patched(x, PAGE_SIZE - Total(rows), Tuples(rows)) == PageOf(next, rows)
            && (|rows| == 0 ==> x == PageOf(next, rows))
  {
    TailCopied(Header(next, |rows|) + SlotsBytes(Slots(rows)), Tuples(rows));
  }

  /** A tuple that underflows does not fit; one no longer than header and slots, or a first one, never underflows. */
  lemma {:induction false} UnderflowBounds(rows: seq<Row>, tuple: Row)
    requires FitsPage(rows)
    ensures Underflows(rows, tuple) ==> !FitsPage(rows + [tuple])
    ensures |tuple| <= HEADER_SIZE + SLOT_SIZE * |rows| ==> !Underflows(rows, tuple)
    ensures |rows| == 0 && |tuple| <= PAGE_SIZE ==> !Underflows(rows, tuple)
  {
    assert (rows + [tuple])[..|rows|] == rows;
  }

  /** With tuples of one length the subtraction fails, once a page is filled up, exactly when one tuple more than the page
      holds would take more bytes than a page has. */
  lemma {:induction false} EqualLengths(rows: seq<Row>, tuple: Row, n: nat)
    requires |tuple| == n && forall i :: 0 <= i < |rows| ==> |rows[i]| == n
    ensures Total(rows) == |rows| * n
    ensures Underflows(rows, tuple) <==> (|rows| + 1) * n > PAGE_SIZE
    ensures FitsPage(rows) <==> HEADER_SIZE + |rows| * (SLOT_SIZE + n) <= PAGE_SIZE
  {
    if |rows| > 0 {
      EqualLengths(rows[..|rows| - 1], tuple, n);
    }
    hide Total;
    assert (|rows| + 1) * n == |rows| * n + n;
    assert |rows| * (SLOT_SIZE + n) == SLOT_SIZE * |rows| + |rows| * n;
  }

  lemma {:induction false} PutBefore(s: seq<byte>, at: nat, b: seq<byte>)
    requires at + |b| <= |s|
    ensures Patched(s, at, b)[at..] == b + s[at + |b|..]
  {
  }

  lemma {:induction false} Inside(p: seq<byte>, at: nat, s: seq<byte>, i: nat, n: nat)
    requires at + |s| <= |p| && p[at..at + |s|] == s && i + n <= |s|
    ensures p[at + i..at + i + n] == s[i..i + n]
  {
    var x, y := p[at + i..at + i + n], s[i..i + n];
    forall k | 0 <= k < n ensures x[k] == y[k] {
      assert p[at..at + |s|][i + k] == p[at + i + k];
    }
  }

  lemma {:induction false} NoSlots(ss: seq<Slot>)
    ensures SlotsBytes(ss[..0]) == []
  {
  }

  lemma {:induction false} SlotsNext(ss: seq<Slot>, i: nat)
    requires i < |ss|
    ensures SlotsBytes(ss[..i + 1]) == SlotsBytes(ss[..i]) + SlotBytes(ss[i])
  {
    assert ss[..i + 1][..i] == ss[..i];
  }

  /** Tuples start at the last slot's offset, which is inside the page since no row is empty. */
  lemma {:induction false} LastOffset(rows: seq<Row>)
    requires Total(rows) <= PAGE_SIZE
    ensures |rows| == 0 ==> Tuples(rows) == []
    ensures |rows| > 0 ==> Slots(rows)[|rows| - 1].offset == PAGE_SIZE - Total(rows) < PAGE_SIZE
  {
  }

  lemma {:induction false} TailCopied(x: seq<byte>, t: seq<byte>)
    requires |x| + |t| <= PAGE_SIZE
    ensures Patched(x + Zeros(PAGE_SIZE - |x|), PAGE_SIZE - |t|, t) == x + Zeros(PAGE_SIZE - |x| - |t|) + t
  {
  }
}
