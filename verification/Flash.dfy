/** The flash controller and the page writer of flashc.c. */
module Flash {
  import opened Arith
  import opened Bytes

  // AVR32_FLASHC_PAGE_SIZE, a device constant: a power of two, of which only this is needed. The User page is
  // one page long.
  type PageSize = p: nat | p >= 8 && p % 8 == 0 witness 8

  const PAGE: PageSize

  const ADDRESSES: nat := 0x1_0000_0000

  function And(x: byte, y: byte): byte { x & y }

  lemma AndFacts()
    ensures forall x :: And(0xFF, x) == x
    ensures forall x :: And(x, x) == x
  {
  }

  // An address that is a whole number of pages.
  predicate Paged(a: nat) {
    a == 0 || (a >= PAGE && Paged(a - PAGE))
  }

  // Align_down and Get_align for the alignments that the driver uses.
  function PageOf(a: nat): (b: nat)
    ensures b <= a < b + PAGE && Paged(b)
  {
    PageStart(a);
    a - a % PAGE
  }

  lemma PageStart(a: nat)
    ensures 0 <= a % PAGE <= a && a < a - a % PAGE + PAGE && Paged(a - a % PAGE)
  {
    hide Paged;
    QuotBounds(a, PAGE);
    PagedTimes(a / PAGE);
    assert a - a % PAGE == a / PAGE * PAGE;
  }

  lemma {:induction false} PagedTimes(n: nat)
    ensures n * PAGE >= 0 && Paged(n * PAGE)
  {
    if n != 0 {
      PagedTimes(n - 1);
      assert n * PAGE == (n - 1) * PAGE + PAGE;
    }
  }

  // Pages follow one another without overlap, and start on double-words.
  lemma {:induction false} PagesApart(a: nat, b: nat)
    requires Paged(a) && Paged(b) && a < b
    ensures a + PAGE <= b
  {
    if a != 0 {
      PagesApart(a - PAGE, b - PAGE);
    }
  }

  lemma {:induction false} PagedDword(a: nat)
    requires Paged(a)
    ensures a % 8 == 0
  {
    if a != 0 {
      PagedDword(a - PAGE);
    }
  }

  lemma PageOfUnique(a: nat, b: nat)
    requires Paged(b) && b <= a < b + PAGE
    ensures PageOf(a) == b
  {
    if PageOf(a) < b {
      PagesApart(PageOf(a), b);
    } else if b < PageOf(a) {
      PagesApart(b, PageOf(a));
    }
  }

  function DwordOf(a: nat): (b: nat)
    ensures b <= a < b + 8 && b % 8 == 0
  {
    a - a % 8
  }

  // What a cell holds after v has been written to it.
  function Programmed(was: byte, v: byte, erase: bool): byte {
    if erase then v else And(was, v)
  }

  /** A write without erase clears bits and sets none: those that were set take the value. */
  lemma WritesOnlyClear(was: byte, v: byte)
    ensures Programmed(was, v, true) == v
    ensures Programmed(was, v, false) & !was == 0 && Programmed(was, v, false) & was == v & was
  {
  }

  // The content that the page at base should have after memset64: the rotated source from offset
  // x to offset e, and what is there now elsewhere.
  ghost predicate IsWanted(cells: map<nat, byte>, want: seq<byte>, base: nat, x: nat, e: nat, source: seq<byte>) {
    |want| == PAGE && |source| == 8 &&
    forall o :: 0 <= o < PAGE ==>
      base + o in cells && want[o] == if x <= o < e then source[o % 8] else cells[base + o]
  }

  // Offset o of the page keeps what flash holds.
  predicate Keeps(cells: map<nat, byte>, want: seq<byte>, base: nat, o: nat)
    requires o < |want|
  {
    base + o in cells && want[o] == cells[base + o]
  }

  ghost predicate Kept(cells: map<nat, byte>, want: seq<byte>, base: nat, lo: nat, hi: nat) {
    lo <= hi <= |want| == PAGE && forall o :: lo <= o < hi ==> Keeps(cells, want, base, o)
  }

  // The page content that a write of want, from address base on, leaves in flash.
  ghost function PageWritten(cells: map<nat, byte>, base: nat, want: seq<byte>, erase: bool): map<nat, byte>
    requires |want| == PAGE
  {
    map a | a in cells :: if base <= a < base + PAGE then Programmed(cells[a], want[a - base], erase) else cells[a]
  }

  class Flashc {
    const flash: nat // AVR32_FLASH_ADDRESS
    const size: nat  // flashc_get_flash_size()
    const user: nat  // AVR32_FLASHC_USER_PAGE
    var cells: map<nat, byte>  // the flash array and the User page
    var buffer: seq<byte>      // the page buffer
    var page: nat              // the page through which the buffer was last addressed

    predicate InArray(a: nat) { flash <= a < flash + size }

    predicate InUser(a: nat) { user <= a < user + PAGE }

    ghost predicate Valid()
      reads this
    {
      && size > 0 && Paged(flash) && Paged(flash + size) && Paged(user)
      && flash + size <= user && user + PAGE <= ADDRESSES
      && |buffer| == PAGE
      && forall a: nat :: a in cells <==> InArray(a) || InUser(a)
    }

    constructor (flash: nat, size: nat, user: nat, cells: map<nat, byte>)
      requires size > 0 && Paged(flash) && Paged(flash + size) && Paged(user)
      requires flash + size <= user && user + PAGE <= 0x1_0000_0000
      requires forall a: nat :: a in cells <==> flash <= a < flash + size || user <= a < user + PAGE
      ensures Valid() && this.flash == flash && this.size == size && this.user == user && this.cells == cells
    {
      this.flash, this.size, this.user, this.cells := flash, size, user, cells;
      buffer, page := seq(PAGE, _ => 0xFF), 0;
    }

    // A page of the array or the User page lies in flash as a whole.
    lemma WholePage(base: nat)
      requires Valid() && Paged(base) && base in cells
      ensures forall a: nat :: base <= a < base + PAGE ==> a in cells
      ensures InArray(base) ==> base + PAGE <= flash + size
      ensures InUser(base) ==> base == user
    {
      hide Paged;
      if InArray(base) {
        PagesApart(base, flash + size);
      } else if user < base {
        PagesApart(user, base);
      }
    }

    // ----- Commands. A write can only clear bits, an erase can only set them.

    method ClearPageBuffer()
      requires Valid()
      modifies this`buffer
      ensures Valid() && forall o :: 0 <= o < PAGE ==> buffer[o] == 0xFF
    {
      buffer := seq(PAGE, _ => 0xFF);
    }

    // A double-word store to a flash address goes to the page buffer.
    method Store(addr: nat, d: seq<byte>)
      requires Valid() && addr % 8 == 0 && addr in cells && |d| == 8
      modifies this`buffer, this`page
      ensures Valid() && page == PageOf(addr)
      ensures forall o :: 0 <= o < PAGE ==>
        buffer[o] == if addr - page <= o < addr - page + 8 then And(old(buffer)[o], d[o - (addr - page)])
                     else old(buffer)[o]
    {
      page := PageOf(addr);
      var k, was := addr - page, buffer;
      buffer := seq(PAGE, o requires 0 <= o < PAGE => if k <= o < k + 8 then And(was[o], d[o - k]) else was[o]);
    }

    method ErasePage(base: nat)
      requires Valid()
      modifies this`cells
      ensures Valid()
      ensures cells == map a | a in old(cells) :: if base <= a < base + PAGE then 0xFF else old(cells)[a]
    {
      cells := map a | a in cells :: if base <= a < base + PAGE then 0xFF else cells[a];
    }

    method WritePage(base: nat)
      requires Valid()
      modifies this`cells
      ensures Valid()
      ensures cells == map a | a in old(cells) ::
        if base <= a < base + PAGE then And(old(cells)[a], buffer[a - base]) else old(cells)[a]
    {
      cells := map a | a in cells :: if base <= a < base + PAGE then And(cells[a], buffer[a - base]) else cells[a];
    }

    // Erase if requested, then write: the page at base takes the buffer's content.
    method Program(base: nat, erase: bool)
      requires Valid()
      modifies this`cells
      ensures Valid() && cells == PageWritten(old(cells), base, buffer, erase)
    {
      if erase {
        ErasePage(base);
      }
      WritePage(base);
      AndFacts();
    }

    // The buffer holds the first k bytes of want for the page at base and is clear behind them.
    ghost predicate Filled(base: nat, want: seq<byte>, k: nat)
      reads this
    {
      && (k > 0 ==> page == base)
      && |buffer| == |want| == PAGE
      && forall o :: 0 <= o < PAGE ==> buffer[o] == if o < k then want[o] else 0xFF
    }

    method StoreNext(base: nat, k: nat, d: seq<byte>, ghost want: seq<byte>)
      requires Valid() && Paged(base) && base in cells && k % 8 == 0 && k < PAGE
      requires Filled(base, want, k) && |d| == 8 && forall i :: 0 <= i < 8 ==> d[i] == want[k + i]
      modifies this`buffer, this`page
      ensures Valid() && Filled(base, want, k + 8)
    {
      hide And;
      AndFacts();
      WholePage(base);
      SamePage(base, k);
      Store(base + k, d);
    }

    // *ptr = *ptr: the double-word of flash at base + k goes to the buffer.
    method CopyNext(base: nat, k: nat, ghost want: seq<byte>)
      requires Valid() && Paged(base) && base in cells && k % 8 == 0 && k < PAGE
      requires Filled(base, want, k)
      requires Kept(cells, want, base, k, k + 8)
      modifies this`buffer, this`page
      ensures Valid() && Filled(base, want, k + 8)
    {
      WholePage(base);
      PagedDword(base);
      hide Paged, Flashc.Filled;
      var was := cells;
      var d := seq(8, i requires 0 <= i < 8 => was[base + k + i]);
      forall i | 0 <= i < 8
        ensures d[i] == want[k + i]
      {
        assert Keeps(was, want, base, k + i);
      }
      StoreNext(base, k, d, want);
    }

    // for (; tmp < to; tmp++) *tmp = *tmp;
    method CopyDwords(base: nat, from: nat, to: nat, ghost want: seq<byte>)
      requires Valid() && Paged(base) && base in cells
      requires from % 8 == 0 && to % 8 == 0 && from <= to <= PAGE && Filled(base, want, from)
      requires Kept(cells, want, base, from, to)
      modifies this`buffer, this`page
      ensures Valid() && Filled(base, want, to)
    {
      var tmp := from;
      while tmp < to
        invariant from <= tmp <= to && tmp % 8 == 0
        invariant Valid() && Filled(base, want, tmp)
      {
        StepFits(tmp, to);
        CopyNext(base, tmp, want);
        tmp := tmp + 8;
      }
    }

    // The part of the page before the destination, at offset x: whole double-words of flash, then
    // a merged one if x is not aligned. That one is held back when the range also ends in it.
    method FillHead(base: nat, x: nat, e: nat, source: seq<byte>, ghost want: seq<byte>)
      returns (dest: nat, flashDword: seq<byte>)
      requires Valid() && Paged(base) && base in cells && x < PAGE && x < e
      requires IsWanted(cells, want, base, x, e, source) && Filled(base, want, 0)
      modifies this`buffer, this`page
      ensures Valid() && Filled(base, want, dest)
      ensures dest == if x % 8 == 0 then x else if DwordOf(x) < DwordOf(e) then DwordOf(x) + 8 else DwordOf(x)
      ensures |flashDword| == 8
      ensures forall i :: 0 <= i < 8 ==> flashDword[i] == if dest + i < x then want[dest + i] else source[i]
    {
      hide Paged, IsWanted, Flashc.Filled;
      DwordBelow(x);
      WantedOutside(cells, want, base, x, e, source, 0, x);
      KeptPrefix(cells, want, base, DwordOf(x), x);
      WantedInside(cells, want, base, x, e, source);
      dest, flashDword := x, source;
      if x != 0 {
        CopyDwords(base, 0, DwordOf(x), want);
        if x % 8 != 0 {
          flashDword := MergeHead(base, x, source, want);
          dest := DwordOf(x);
          if dest < DwordOf(e) {
            forall i | 0 <= i < 8 ensures flashDword[i] == want[dest + i] { ByteIndex(dest, i); }
            StoreNext(base, dest, flashDword, want);
            dest := dest + 8;
            flashDword := source;
          }
        }
      }
    }

    // The first bytes of the double-word at offset x come from flash.
    method MergeHead(base: nat, x: nat, source: seq<byte>, ghost want: seq<byte>) returns (flashDword: seq<byte>)
      requires Valid() && x < PAGE && |source| == 8 && |want| == PAGE
      requires Kept(cells, want, base, 0, x)
      ensures |flashDword| == 8
      ensures forall i :: 0 <= i < 8 ==> flashDword[i] == if DwordOf(x) + i < x then want[DwordOf(x) + i] else source[i]
    {
      flashDword := source;
      var tmp := DwordOf(x);
      for i := 0 to x % 8
        invariant tmp == DwordOf(x) + i
        invariant |flashDword| == 8
        invariant forall j :: 0 <= j < 8 ==> flashDword[j] == if j < i then want[DwordOf(x) + j] else source[j]
      {
        assert Keeps(cells, want, base, tmp);
        flashDword := flashDword[i := cells[base + tmp]];
        tmp := tmp + 1;
      }
    }

    // The whole double-words of source data, up to offset to.
    method FillBody(base: nat, from: nat, to: nat, source: seq<byte>, ghost want: seq<byte>)
      requires Valid() && Paged(base) && base in cells && |source| == 8
      requires from % 8 == 0 && to % 8 == 0 && from <= to <= PAGE && Filled(base, want, from)
      requires forall o :: from <= o < to ==> want[o] == source[o % 8]
      modifies this`buffer, this`page
      ensures Valid() && Filled(base, want, to)
    {
      var dest := from;
      for i := (to - from) / 8 downto 0
        invariant dest + 8 * i == to && dest % 8 == 0 && from <= dest
        invariant Valid() && Filled(base, want, dest)
      {
        forall i | 0 <= i < 8 ensures source[i] == want[dest + i] { ByteIndex(dest, i); }
        StoreNext(base, dest, source, want);
        dest := dest + 8;
      }
    }

    // The last bytes of the double-word at offset e come from flash.
    method MergeTail(base: nat, e: nat, dword: seq<byte>, ghost want: seq<byte>) returns (flashDword: seq<byte>)
      requires Valid() && e < PAGE && |dword| == 8 && |want| == PAGE
      requires Kept(cells, want, base, e, PAGE)
      ensures |flashDword| == 8
      ensures forall i :: 0 <= i < 8 ==> flashDword[i] == if DwordOf(e) + i < e then dword[i] else want[DwordOf(e) + i]
    {
      flashDword := dword;
      var tmp := e;
      for i := e % 8 to 8
        invariant tmp == DwordOf(e) + i
        invariant |flashDword| == 8
        invariant forall j :: 0 <= j < 8 ==> flashDword[j] == if e % 8 <= j < i then want[DwordOf(e) + j] else dword[j]
      {
        assert Keeps(cells, want, base, tmp);
        flashDword := flashDword[i := cells[base + tmp]];
        tmp := tmp + 1;
      }
    }

    // The incomplete end of a page: the merged double-word, if the range does not end on a
    // boundary, and then what flash holds.
    method FillTail(base: nat, x: nat, e: nat, dword: seq<byte>, source: seq<byte>, ghost want: seq<byte>)
      returns (dest: nat)
      requires Valid() && Paged(base) && base in cells && x < e < PAGE
      requires IsWanted(cells, want, base, x, e, source) && Filled(base, want, DwordOf(e)) && |dword| == 8
      requires forall i :: 0 <= i < 8 ==> dword[i] == if DwordOf(e) + i < x then want[DwordOf(e) + i] else source[i]
      modifies this`buffer, this`page
      ensures Valid() && Filled(base, want, PAGE)
      ensures dest == if e % 8 == 0 then e else DwordOf(e) + 8
    {
      hide Paged, IsWanted, Flashc.Filled, Kept;
      DwordBelow(e);
      WantedOutside(cells, want, base, x, e, source, e, PAGE);
      WantedOutside(cells, want, base, x, e, source, if e % 8 == 0 then e else DwordOf(e) + 8, PAGE);
      WantedInside(cells, want, base, x, e, source);
      dest := DwordOf(e);
      if e % 8 != 0 {
        var flashDword := MergeTail(base, e, dword, want);
        forall i | 0 <= i < 8 ensures flashDword[i] == want[dest + i] { ByteIndex(dest, i); }
        StoreNext(base, dest, flashDword, want);
        dest := dest + 8;
      }
      CopyDwords(base, dest, PAGE, want);
    }

    // The page buffer for the page at base.
    method FillPage(base: nat, x: nat, e: nat, source: seq<byte>, ghost want: seq<byte>) returns (dest: nat)
      requires Valid() && Paged(base) && base in cells && x < PAGE && x < e
      requires IsWanted(cells, want, base, x, e, source) && Filled(base, want, 0)
      modifies this`buffer, this`page
      ensures Valid() && Filled(base, want, PAGE)
      ensures dest == if e >= PAGE then PAGE else if e % 8 == 0 then e else DwordOf(e) + 8
    {
      hide PageOf, Paged, IsWanted, DwordOf;
      var flashDword: seq<byte>;
      var pageSourceEnd := if DwordOf(e) < PAGE then DwordOf(e) else PAGE;
      var incompleteEnd := PageOf(base) >= PageOf(base + e);
      EndOfPage(base, e);
      HeadEnds(x, e);
      DwordBelow(e);
      WantedInside(cells, want, base, x, e, source);
      dest, flashDword := FillHead(base, x, e, source, want);
      FillBody(base, dest, pageSourceEnd, source, want);
      dest := pageSourceEnd;
      if incompleteEnd {
        dest := FillTail(base, x, e, flashDword, source, want);
      }
    }

    method BuildPage(base: nat, x: nat, e: nat, source: seq<byte>) returns (filled: nat, ghost want: seq<byte>)
      requires Valid() && Paged(base) && base in cells && x < PAGE && x < e && |source| == 8
      modifies this`buffer, this`page
      ensures Valid() && IsWanted(cells, want, base, x, e, source) && buffer == want && page == base
      ensures filled == if e >= PAGE then PAGE else if e % 8 == 0 then e else DwordOf(e) + 8
    {
      hide DwordOf;
      ClearPageBuffer();
      WholePage(base);
      ghost var was := cells;
      want := seq(PAGE, o requires 0 <= o < PAGE => if x <= o < e then source[o % 8] else was[base + o]);
      assert IsWanted(cells, want, base, x, e, source);
      filled := FillPage(base, x, e, source, want);
    }

    // One pass of the main loop: the page of dest is filled, erased if requested and written. The
    // position behind the filled part tells the array from the User page.
    method WriteOnePage(dest: nat, destEnd: nat, source: seq<byte>, erase: bool) returns (next: nat)
      requires Valid() && dest in cells && dest < destEnd && |source| == 8
      requires InUser(dest) ==> destEnd <= user + PAGE
      modifies this
      ensures Valid() && cells == Segment(old(cells), dest, Min(destEnd, PageOf(dest) + PAGE), source, erase)
      ensures dest < next
      ensures next < destEnd ==> InArray(dest) && PageOf(dest) + PAGE <= destEnd && next in cells
      ensures PageOf(dest) + PAGE <= destEnd ==>
        next == PageOf(dest) + PAGE || (next == user && PageOf(dest) + PAGE == flash + size)
    {
      hide Segment, IsWanted, PageWritten;
      ghost var was := cells;
      var base := PageOf(dest);
      PageInCells(dest);
      WholePage(base);
      ghost var want: seq<byte>;
      var filled: nat;
      filled, want := BuildPage(base, dest - base, destEnd - base, source);
      next := base + filled;
      FilledEnd(destEnd - base, filled);
      if next <= user {
        Program(page, erase);
        if next >= flash + size {
          next := user;
        }
      } else {
        Program(user, erase);
      }
      WantedSegment(was, base, dest - base, destEnd - base, source, want, erase);
    }

    lemma PageInCells(a: nat)
      requires Valid() && a in cells
      ensures PageOf(a) in cells
      ensures InArray(a) ==> InArray(PageOf(a))
      ensures InUser(a) ==> PageOf(a) == user
    {
      hide Paged, PageOf;
      if InUser(a) {
        PageOfUnique(a, user);
      } else if PageOf(a) < flash {
        PagesApart(PageOf(a), flash);
      }
    }

    // The 64-bit source as the eight bytes that memory holds from an 8-byte boundary on, when the
    // destination is not on one. The loop stops as soon as nothing but zero bytes is left.
    method RotateSource(dst: nat, src: nat) returns (source: seq<byte>)
      requires src < Pow256(8)
      ensures |source| == 8
      ensures forall k :: 0 <= k < 8 ==> source[Slot(dst % 8, k)] == BigEndian(src, 8)[k]
    {
      hide BigEndian, Pow256, Slot, ToByte;
      source := Zeros(8);
      var s: nat := src;
      var i := (dst % 8 + 7) % 8;
      ghost var n, align, pattern := 0, dst % 8, BigEndian(src, 8);
      while s != 0
        invariant n <= 8 && s < Pow256(8 - n) && |source| == 8
        invariant i == (align + 15 - n) % 8
        invariant pattern[..8 - n] == BigEndian(s, 8 - n)
        invariant forall k :: 0 <= k < 8 ==> source[Slot(align, k)] == if k < 8 - n then 0 else pattern[k]
        decreases 8 - n
      {
        PeelByte(src, s, n);
        SlotBackwards(align, n);
        SlotsDiffer(align, 7 - n);
        source := source[i := ToByte(s % 256)];
        s := s / 256;
        i := (i + 7) % 8;
        n := n + 1;
      }
      BigEndianZero(0, 8 - n);
      forall k | 0 <= k < 8 - n ensures pattern[k] == 0 {
        assert pattern[k] == pattern[..8 - n][k];
      }
    }

    // flashc_memset64. Areas outside the array and the User page are skipped.
    method Memset64(dst: nat, src: nat, nbytes: nat, erase: bool) returns (r: nat)
      requires Valid() && src < Pow256(8) && dst + nbytes < ADDRESSES
      modifies this
      ensures Valid() && r == dst
      ensures cells == FilledRange(old(cells), dst, nbytes, BigEndian(src, 8), erase)
    {
      hide Segment, FilledRange, PageOf, BigEndian, Pow256;
      ghost var was := cells;
      var flashArrayEnd := flash + size;
      var source := RotateSource(dst, src);
      var dest, destEnd := dst, dst + nbytes;
      if dest < flash {
        dest := flash;
      } else if flashArrayEnd <= dest < user {
        dest := user;
      }
      if destEnd > user + PAGE {
        destEnd := user + PAGE;
      } else if user >= destEnd > flashArrayEnd {
        destEnd := flashArrayEnd;
      }
      ghost var start, stop := dest, Max(dest, destEnd);
      assert forall a :: a in was ==> (dst <= a < dst + nbytes <==> start <= a < stop);
      RotatedFill(was, dst, nbytes, start, stop, BigEndian(src, 8), source, erase);
      SegmentEmpty(was, start, source, erase);
      while dest < destEnd
        invariant Valid() && start <= dest
        invariant dest < destEnd ==> dest in cells
        invariant cells == Segment(was, start, if dest < destEnd then dest else stop, source, erase)
        decreases destEnd - dest
      {
        ghost var at, hi := dest, Min(destEnd, PageOf(dest) + PAGE);
        dest := WriteOnePage(dest, destEnd, source, erase);
        SegmentsJoin(was, start, at, hi, source, erase);
        SegmentGap(was, start, hi, if dest < destEnd then dest else stop, source, erase);
      }
      r := dst;
    }

    // flashc_memset32, flashc_memset16 and flashc_memset8: the halves do not overlap, so that the
    // bitwise or of the source is a sum.
    method Memset32(dst: nat, src: nat, nbytes: nat, erase: bool) returns (r: nat)
      requires Valid() && src < 0x1_0000_0000 && dst + nbytes < ADDRESSES
      modifies this
      ensures Valid() && r == dst
      ensures cells == FilledRange(old(cells), dst, nbytes, BigEndian(src, 4) + BigEndian(src, 4), erase)
    {
      hide FilledRange;
      DoubledWord(src);
      r := Memset64(dst, src + 0x1_0000_0000 * src, nbytes, erase);
    }

    method Memset16(dst: nat, src: nat, nbytes: nat, erase: bool) returns (r: nat)
      requires Valid() && src < 0x1_0000 && dst + nbytes < ADDRESSES
      modifies this
      ensures Valid() && r == dst
      ensures var b := BigEndian(src, 2); cells == FilledRange(old(cells), dst, nbytes, b + b + (b + b), erase)
    {
      hide FilledRange;
      DoubledHalf(src);
      r := Memset32(dst, src + 0x1_0000 * src, nbytes, erase);
    }

    method Memset8(dst: nat, src: nat, nbytes: nat, erase: bool) returns (r: nat)
      requires Valid() && src < 0x100 && dst + nbytes < ADDRESSES
      modifies this
      ensures Valid() && r == dst
      ensures forall b: byte :: Value(b) == src ==> cells == FilledRange(old(cells), dst, nbytes, seq(8, _ => b), erase)
    {
      hide FilledRange, ToByte, Value;
      DoubledByte(src);
      OnlyByte(src);
      r := Memset16(dst, src + 0x100 * src, nbytes, erase);
      var b := [ToByte(src), ToByte(src)];
      assert b + b + (b + b) == seq(8, _ => ToByte(src));
    }

    // One double-word of flashc_memcpy: the byte of flash at every position except where the next
    // source byte goes.
    method CopyDword(base: nat, k: nat, x: nat, data: seq<byte>, pos0: nat, destAdd0: nat, ghost want: seq<byte>)
      returns (pos: nat, destAdd: nat)
      requires Valid() && Paged(base) && base in cells && k % 8 == 0 && k < PAGE
      requires IsCopied(cells, want, base, x, data) && Filled(base, want, k)
      requires pos0 == Consumed(k, x, |data|) && destAdd0 == base + x + pos0
      modifies this`buffer, this`page
      ensures Valid() && Filled(base, want, k + 8)
      ensures pos == Consumed(k + 8, x, |data|) && destAdd == base + x + pos
    {
      WholePage(base);
      var was := cells;
      var flashDword := seq(8, i requires 0 <= i < 8 => was[base + k + i]);
      var flashAdd := base + k;
      pos, destAdd := pos0, destAdd0;
      for i := 0 to 8
        invariant flashAdd == base + k + i && |flashDword| == 8
        invariant pos == Consumed(k + i, x, |data|) && destAdd == base + x + pos
        invariant forall j :: 0 <= j < 8 ==> flashDword[j] == if j < i then want[k + j] else was[base + k + j]
      {
        ghost var w := want[k + i];
        if |data| - pos != 0 && flashAdd == destAdd {
          flashDword := flashDword[i := data[pos]];
          destAdd := destAdd + 1;
          pos := pos + 1;
        }
        flashAdd := flashAdd + 1;
      }
      StoreNext(base, k, flashDword, want);
    }

    // The page buffer for one page of flashc_memcpy.
    method CopyPage(base: nat, x: nat, data: seq<byte>) returns (pos: nat, ghost want: seq<byte>)
      requires Valid() && Paged(base) && base in cells && x < PAGE
      modifies this`buffer, this`page
      ensures Valid() && IsCopied(cells, want, base, x, data) && buffer == want && page == base
      ensures pos == Min(PAGE - x, |data|)
    {
      hide PageOf;
      ClearPageBuffer();
      WholePage(base);
      ghost var was := cells;
      want := seq(PAGE, o requires 0 <= o < PAGE => if x <= o < x + |data| then data[o - x] else was[base + o]);
      assert IsCopied(cells, want, base, x, data);
      var pagePos, destAdd := 0, base + x;
      pos := 0;
      while pagePos < PAGE
        invariant pagePos <= PAGE && pagePos % 8 == 0
        invariant Valid() && Filled(base, want, pagePos)
        invariant pos == Consumed(pagePos, x, |data|) && destAdd == base + x + pos
      {
        pos, destAdd := CopyDword(base, pagePos, x, data, pos, destAdd, want);
        pagePos := pagePos + 8;
      }
    }

    // flashc_memcpy, for areas inside the array or inside the User page.
    method Memcpy(dst: nat, src: seq<byte>, erase: bool) returns (r: nat)
      requires Valid()
      requires (flash <= dst && dst + |src| <= flash + size) || (user <= dst && dst + |src| <= user + PAGE)
      modifies this
      ensures Valid() && r == dst
      ensures cells == CopiedRange(old(cells), dst, src, erase)
    {
      hide CopiedRange, IsCopied, PageWritten, Paged, PageOf;
      ghost var was := cells;
      var bUserPage := dst >= user;
      var flashAdd: nat, destAdd: nat := PageOf(dst), dst;
      var nbytes: nat, done: nat := |src|, 0;
      CopiedNothing(was, dst, src[..0], erase);
      while nbytes != 0
        invariant Valid() && nbytes + done == |src| && destAdd == dst + done
        invariant nbytes != 0 ==> flashAdd == PageOf(destAdd)
        invariant cells == CopiedRange(was, dst, src[..done], erase)
        decreases nbytes
      {
        PageInCells(destAdd);
        NextPage(flashAdd);
        var x := destAdd - flashAdd;
        ghost var before := cells;
        ghost var want: seq<byte>;
        var count: nat;
        count, want := CopyPage(flashAdd, x, src[done..]);
        if bUserPage {
          Program(user, erase);
        } else {
          Program(page, erase);
        }
        CopiedPage(before, flashAdd, x, src[done..], want, count, erase);
        CopiedJoin(was, dst, src[..done], src[done..][..count], erase);
        assert src[..done] + src[done..][..count] == src[..done + count];
        flashAdd := flashAdd + PAGE;
        destAdd, nbytes, done := destAdd + count, nbytes - count, done + count;
      }
      assert src[..|src|] == src;
      r := dst;
    }
  }

  // Bytes of the source used up when position k of the page is reached.
  function Consumed(k: nat, x: nat, n: nat): nat {
    if k <= x then 0 else Min(k - x, n)
  }

  // The content that the page at base should have after memcpy: the data from offset x on, and what
  // is there now elsewhere.
  ghost predicate IsCopied(cells: map<nat, byte>, want: seq<byte>, base: nat, x: nat, data: seq<byte>) {
    |want| == PAGE &&
    forall o :: 0 <= o < PAGE ==>
      base + o in cells && want[o] == if x <= o < x + |data| then data[o - x] else cells[base + o]
  }

  // Exactly the cells from dst on take the source bytes.
  ghost function CopiedRange(cells: map<nat, byte>, dst: nat, src: seq<byte>, erase: bool): map<nat, byte> {
    map a | a in cells :: if dst <= a < dst + |src| then Programmed(cells[a], src[a - dst], erase) else cells[a]
  }

  lemma CopiedNothing(cells: map<nat, byte>, dst: nat, src: seq<byte>, erase: bool)
    requires src == []
    ensures CopiedRange(cells, dst, src, erase) == cells
  {
    hide Programmed;
  }

  lemma CopiedJoin(cells: map<nat, byte>, dst: nat, x: seq<byte>, y: seq<byte>, erase: bool)
    ensures CopiedRange(CopiedRange(cells, dst, x, erase), dst + |x|, y, erase) == CopiedRange(cells, dst, x + y, erase)
  {
    hide Programmed;
  }

  lemma CopiedPage(cells: map<nat, byte>, base: nat, x: nat, data: seq<byte>, want: seq<byte>, count: nat, erase: bool)
    requires IsCopied(cells, want, base, x, data) && |want| == PAGE && x < PAGE && count == Min(PAGE - x, |data|)
    ensures PageWritten(cells, base, want, erase) == CopiedRange(cells, base + x, data[..count], erase)
  {
    hide Programmed, IsCopied;
    forall a | a in cells
      ensures PageWritten(cells, base, want, erase)[a] == CopiedRange(cells, base + x, data[..count], erase)[a]
    {
      if base <= a < base + PAGE {
        CopiedCell(cells, base, x, data, want, erase, a);
      }
    }
  }

  lemma CopiedCell(cells: map<nat, byte>, base: nat, x: nat, data: seq<byte>, want: seq<byte>, erase: bool, a: nat)
    requires IsCopied(cells, want, base, x, data) && a in cells && base <= a < base + PAGE
    ensures Programmed(cells[a], want[a - base], erase)
         == if x <= a - base < x + |data| then Programmed(cells[a], data[a - base - x], erase) else cells[a]
  {
    hide Programmed;
    Reprogrammed(cells[a], erase);
    var w := want[a - base];
  }

  /** What was copied reads back exactly if the pages were erased, or if no bit of the source had to
    be set again. */
  lemma CopyReadsBack(cells: map<nat, byte>, dst: nat, src: seq<byte>, erase: bool)
    requires forall a :: dst <= a < dst + |src| ==> a in cells
    ensures (forall a :: dst <= a < dst + |src| ==> CopiedRange(cells, dst, src, erase)[a] == src[a - dst])
       <==> erase || forall a :: dst <= a < dst + |src| ==> And(cells[a], src[a - dst]) == src[a - dst]
  {
    hide And;
    var c := CopiedRange(cells, dst, src, erase);
    assert forall a :: dst <= a < dst + |src| ==> c[a] == Programmed(cells[a], src[a - dst], erase);
  }

  /** In particular it reads back after a write without erase to erased cells. */
  lemma CopyToErased(cells: map<nat, byte>, dst: nat, src: seq<byte>, erase: bool)
    requires forall a :: dst <= a < dst + |src| ==> a in cells && cells[a] == 0xFF
    ensures forall a :: dst <= a < dst + |src| ==> CopiedRange(cells, dst, src, erase)[a] == src[a - dst]
  {
    AndFacts();
    hide And;
  }

  /** memset64 does what memcpy would do with the repeated pattern. */
  lemma FillIsCopy(cells: map<nat, byte>, dst: nat, nbytes: nat, pattern: seq<byte>, erase: bool)
    requires |pattern| == 8
    ensures FilledRange(cells, dst, nbytes, pattern, erase)
         == CopiedRange(cells, dst, seq(nbytes, k requires 0 <= k < nbytes => pattern[k % 8]), erase)
  {
    hide Programmed;
  }

  lemma DoubledWord(src: nat)
    requires src < 0x1_0000_0000
    ensures src + 0x1_0000_0000 * src < Pow256(8)
    ensures BigEndian(src + 0x1_0000_0000 * src, 8) == BigEndian(src, 4) + BigEndian(src, 4)
  {
    var v := src + 0x1_0000_0000 * src;
    BigEndianSplit(v, 8);
    assert v / 0x1_0000_0000 == src && v % 0x1_0000_0000 == src;
    assert Pow256(4) == 0x1_0000_0000 by { assert Pow256(2) == 0x1_0000; }
    assert Pow256(6) == 0x1_0000 * Pow256(4);
    assert Pow256(8) == 0x1_0000 * Pow256(6);
    hide BigEndian;
  }

  lemma DoubledHalf(src: nat)
    requires src < 0x1_0000
    ensures BigEndian(src + 0x1_0000 * src, 4) == BigEndian(src, 2) + BigEndian(src, 2)
  {
    var v := src + 0x1_0000 * src;
    LowTwo(v, 4);
    assert v / 0x1_0000 == src && v % 0x1_0000 == src;
    hide BigEndian;
  }

  lemma OnlyByte(src: nat)
    requires src < 0x100
    ensures Value(ToByte(src)) == src && forall b: byte :: Value(b) == src ==> b == ToByte(src)
  {
    hide ToByte, Value;
    ByteValue(src);
    forall b: byte | Value(b) == src
      ensures b == ToByte(src)
    {
      ValueByte(b);
    }
  }

  lemma DoubledByte(src: nat)
    requires src < 0x100
    ensures BigEndian(src + 0x100 * src, 2) == [ToByte(src), ToByte(src)]
  {
    hide ToByte;
    var v := src + 0x100 * src;
    assert v / 256 == src && v % 256 == src;
    assert BigEndian(v, 2) == BigEndian(src, 1) + [ToByte(src)];
    assert BigEndian(src, 1) == [ToByte(src)];
  }

  // Where byte k of the source goes when the destination is align bytes above an 8-byte boundary.
  function Slot(align: nat, k: nat): (s: nat)
    requires align < 8 && k < 8
    ensures s < 8 && s == (align + k) % 8
  {
    if align + k < 8 then align + k else align + k - 8
  }

  lemma SlotBackwards(align: nat, n: nat)
    requires align < 8 && n < 8
    ensures (align + 15 - n) % 8 == Slot(align, 7 - n)
    ensures ((align + 15 - n) % 8 + 7) % 8 == (align + 15 - (n + 1)) % 8
  {
  }

  lemma SlotsDiffer(align: nat, j: nat)
    requires align < 8 && j < 8
    ensures forall k :: 0 <= k < 8 && k != j ==> Slot(align, k) != Slot(align, j)
  {
  }

  lemma PeelByte(src: nat, s: nat, n: nat)
    requires n <= 8 && src < Pow256(8) && 0 < s < Pow256(8 - n)
    requires BigEndian(src, 8)[..8 - n] == BigEndian(s, 8 - n)
    ensures n < 8 && s / 256 < Pow256(7 - n)
    ensures BigEndian(src, 8)[7 - n] == ToByte(s % 256)
    ensures BigEndian(src, 8)[..7 - n] == BigEndian(s / 256, 7 - n)
  {
    hide ToByte;
    var b, c := BigEndian(src, 8), BigEndian(s, 8 - n);
    assert c == BigEndian(s / 256, 7 - n) + [ToByte(s % 256)];
    assert b[7 - n] == b[..8 - n][7 - n];
    assert b[..7 - n] == b[..8 - n][..7 - n];
  }

  // Every cell of the range holds the byte of the pattern that its distance from dst selects, and
  // every other cell is as before.
  ghost function FilledRange(cells: map<nat, byte>, dst: nat, nbytes: nat, pattern: seq<byte>, erase: bool)
    : map<nat, byte>
    requires |pattern| == 8
  {
    map a | a in cells ::
      if dst <= a < dst + nbytes then Programmed(cells[a], pattern[(a - dst) % 8], erase) else cells[a]
  }

  /** The rotated source, selected by address, is the pattern, selected by distance. */
  lemma RotatedFill(cells: map<nat, byte>, dst: nat, nbytes: nat, lo: nat, hi: nat, pattern: seq<byte>,
                    source: seq<byte>, erase: bool)
    requires |pattern| == |source| == 8
    requires forall k :: 0 <= k < 8 ==> source[Slot(dst % 8, k)] == pattern[k]
    requires forall a :: a in cells ==> (dst <= a < dst + nbytes <==> lo <= a < hi)
    ensures Segment(cells, lo, hi, source, erase) == FilledRange(cells, dst, nbytes, pattern, erase)
  {
    hide Programmed;
    forall a | a in cells
      ensures Segment(cells, lo, hi, source, erase)[a] == FilledRange(cells, dst, nbytes, pattern, erase)[a]
    {
      if dst <= a {
        SlotOf(dst, a);
      }
    }
  }

  lemma SlotOf(dst: nat, a: nat)
    requires dst <= a
    ensures a % 8 == Slot(dst % 8, (a - dst) % 8)
  {
  }

  lemma SegmentEmpty(cells: map<nat, byte>, lo: nat, source: seq<byte>, erase: bool)
    requires |source| == 8
    ensures Segment(cells, lo, lo, source, erase) == cells
  {
    hide Programmed;
  }

  // The flash content after every cell from lo to hi has been written with the byte of source that
  // its address selects.
  ghost function Segment(cells: map<nat, byte>, lo: nat, hi: nat, source: seq<byte>, erase: bool): map<nat, byte>
    requires |source| == 8
  {
    map a | a in cells :: if lo <= a < hi then Programmed(cells[a], source[a % 8], erase) else cells[a]
  }

  lemma SegmentsJoin(cells: map<nat, byte>, lo: nat, mid: nat, hi: nat, source: seq<byte>, erase: bool)
    requires |source| == 8 && lo <= mid <= hi
    ensures Segment(Segment(cells, lo, mid, source, erase), mid, hi, source, erase)
         == Segment(cells, lo, hi, source, erase)
  {
    hide Programmed;
  }

  // Addresses without cells do not matter.
  lemma SegmentGap(cells: map<nat, byte>, lo: nat, hi: nat, hi': nat, source: seq<byte>, erase: bool)
    requires |source| == 8 && hi <= hi' && forall a :: a in cells ==> !(hi <= a < hi')
    ensures Segment(cells, lo, hi, source, erase) == Segment(cells, lo, hi', source, erase)
  {
    hide Programmed;
  }

  lemma WantedSegment(cells: map<nat, byte>, base: nat, x: nat, e: nat, source: seq<byte>, want: seq<byte>, erase: bool)
    requires Paged(base) && x < PAGE && x < e && |want| == PAGE && |source| == 8
    requires IsWanted(cells, want, base, x, e, source)
    ensures PageWritten(cells, base, want, erase) == Segment(cells, base + x, Min(base + e, base + PAGE), source, erase)
  {
    hide Programmed, IsWanted;
    forall a | a in cells
      ensures PageWritten(cells, base, want, erase)[a]
           == Segment(cells, base + x, Min(base + e, base + PAGE), source, erase)[a]
    {
      if base <= a < base + PAGE {
        WantedCell(cells, base, x, e, source, want, erase, a);
      }
    }
  }

  lemma WantedCell(cells: map<nat, byte>, base: nat, x: nat, e: nat, source: seq<byte>, want: seq<byte>, erase: bool,
                   a: nat)
    requires Paged(base) && x < e && IsWanted(cells, want, base, x, e, source)
    requires a in cells && base <= a < base + PAGE
    ensures Programmed(cells[a], want[a - base], erase)
         == if base + x <= a < base + e then Programmed(cells[a], source[a % 8], erase) else cells[a]
  {
    hide Programmed;
    SameByteIndex(base, a);
    Reprogrammed(cells[a], erase);
    var w := want[a - base];
  }

  lemma NextPage(base: nat)
    requires Paged(base)
    ensures PageOf(base + PAGE) == base + PAGE
  {
    hide PageOf;
    assert Paged(base + PAGE);
    PageOfUnique(base + PAGE, base + PAGE);
  }

  lemma DwordBelow(e: nat)
    ensures e < PAGE ==> DwordOf(e) + 8 <= PAGE
    ensures e % 8 == 0 ==> DwordOf(e) == e
  {
  }

  // Outside the range the page keeps what flash holds.
  lemma WantedOutside(cells: map<nat, byte>, want: seq<byte>, base: nat, x: nat, e: nat, source: seq<byte>,
                      lo: nat, hi: nat)
    requires IsWanted(cells, want, base, x, e, source) && lo <= hi <= PAGE && (hi <= x || e <= lo)
    ensures Kept(cells, want, base, lo, hi)
  {
    forall o | lo <= o < hi
      ensures Keeps(cells, want, base, o)
    {
      var w := want[o];
    }
  }

  lemma KeptPrefix(cells: map<nat, byte>, want: seq<byte>, base: nat, k: nat, x: nat)
    requires Kept(cells, want, base, 0, x) && k <= x
    ensures Kept(cells, want, base, 0, k)
  {
  }

  lemma StepFits(k: nat, to: nat)
    requires k % 8 == 0 && to % 8 == 0 && k < to
    ensures k + 8 <= to && (k + 8) % 8 == 0
  {
  }

  lemma WantedInside(cells: map<nat, byte>, want: seq<byte>, base: nat, x: nat, e: nat, source: seq<byte>)
    requires IsWanted(cells, want, base, x, e, source)
    ensures |want| == PAGE && |source| == 8
    ensures forall o :: x <= o < Min(e, PAGE) ==> want[o] == source[o % 8]
  {
  }

  lemma SameByteIndex(base: nat, a: nat)
    requires Paged(base) && base <= a
    ensures a % 8 == (a - base) % 8
  {
    PagedDword(base);
  }

  lemma Reprogrammed(v: byte, erase: bool)
    ensures Programmed(v, v, erase) == v
  {
  }

  lemma EndOfPage(base: nat, e: nat)
    requires Paged(base)
    ensures PageOf(base) >= PageOf(base + e) <==> e < PAGE
  {
    PageOfUnique(base, base);
    if e < PAGE {
      PageOfUnique(base + e, base);
    }
  }

  lemma HeadEnds(x: nat, e: nat)
    requires x < PAGE && x < e
    ensures x % 8 == 0 ==> x <= DwordOf(e) && x <= PAGE
    ensures x % 8 != 0 && DwordOf(x) < DwordOf(e) ==> DwordOf(x) + 8 <= DwordOf(e) && DwordOf(x) + 8 <= PAGE
    ensures x % 8 != 0 && DwordOf(x) >= DwordOf(e) ==> DwordOf(x) == DwordOf(e) && e < PAGE
  {
  }

  lemma FilledEnd(e: nat, filled: nat)
    requires e > 0
    requires filled == if e >= PAGE then PAGE else if e % 8 == 0 then e else DwordOf(e) + 8
    ensures 8 <= filled <= PAGE && (e < PAGE ==> filled >= e) && (e >= PAGE ==> filled == PAGE)
  {
  }

  lemma ByteIndex(k: nat, i: nat)
    requires k % 8 == 0 && i < 8
    ensures (k + i) % 8 == i
  {
  }

  lemma SamePage(base: nat, k: nat)
    requires Paged(base) && k < PAGE && k % 8 == 0
    ensures PageOf(base + k) == base && (base + k) % 8 == 0
  {
    hide PageOf;
    PageOfUnique(base + k, base);
    PagedDword(base);
  }
}
