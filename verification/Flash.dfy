/**
NOR flash of the controller and its byte writer (stmflash.c): programming can only clear bits,
erasing works on whole sectors, and erase marks keep one write sequence from erasing twice.
Flash operations succeed.
*/
module Flash {

  import opened Words

  const BASE := 0x0800_0000
  const SIZE := 0x10_0000
  const SECTORS := 12

  /** Start addresses of the sectors, and the end of the flash. */
  const STARTS: seq<nat> := [
    0x0800_0000, 0x0800_4000, 0x0800_8000, 0x0800_C000, 0x0801_0000, 0x0802_0000, 0x0804_0000, 0x0806_0000,
    0x0808_0000, 0x080A_0000, 0x080C_0000, 0x080E_0000, 0x0810_0000]

  /** STMFLASH_GetFlashSector: the code of a sector is eight times its number. */
  function SectorCode(addr: nat): (code: nat)
    ensures code % 8 == 0 && code < 8 * SECTORS
  {
    if addr < 0x0800_4000 then 0x00
    else if addr < 0x0800_8000 then 0x08
    else if addr < 0x0800_C000 then 0x10
    else if addr < 0x0801_0000 then 0x18
    else if addr < 0x0802_0000 then 0x20
    else if addr < 0x0804_0000 then 0x28
    else if addr < 0x0806_0000 then 0x30
    else if addr < 0x0808_0000 then 0x38
    else if addr < 0x080A_0000 then 0x40
    else if addr < 0x080C_0000 then 0x48
    else if addr < 0x080E_0000 then 0x50
    else 0x58
  }

  /** FLASH_Sector_to_index after STMFLASH_GetFlashSector. */
  function SectorOf(addr: nat): (s: nat)
    ensures s < SECTORS
  {
    SectorCode(addr) / 8
  }

  /** Inside the flash the lookup is right: an address belongs to the sector that spans it. */
  lemma SectorSpans(addr: nat, s: nat)
    requires BASE <= addr < BASE + SIZE && s < SECTORS
    ensures SectorOf(addr) == s <==> STARTS[s] <= addr < STARTS[s + 1]
  {
  }

  function AddressOf(w: nat): nat { BASE + 4 * w }

  function Erased(words: seq<Word>, s: nat): (r: seq<Word>)
    ensures |r| == |words|
  {
    seq(|words|, i requires 0 <= i < |words| => if SectorOf(AddressOf(i)) == s then ONES else words[i])
  }

  /** `buf` programmed from word `at` on: bits are only cleared. */
  function Programmed(words: seq<Word>, at: nat, buf: seq<Word>): (r: seq<Word>)
    ensures |r| == |words|
  {
    seq(|words|, i requires 0 <= i < |words| => if at <= i < at + |buf| then And(words[i], buf[i - at]) else words[i])
  }

  predicate Blank(words: seq<Word>, at: nat, n: nat) {
    forall i :: at <= i < at + n && i < |words| ==> words[i] == ONES
  }

  class Chip {
    const words: array<Word>
    /** sector_erase_state_tab: the sector was erased in this write sequence */
    const marks: array<bool>
    /** No word was programmed without being erased before. */
    ghost var clean: bool

    ghost predicate Valid()
      reads this
    {
      words.Length == SIZE / 4 && marks.Length == SECTORS
    }

    constructor ()
      ensures Valid() && clean && fresh(words) && fresh(marks)
      ensures forall i :: 0 <= i < marks.Length ==> !marks[i]
    {
      words := new Word[SIZE / 4](_ => ONES);
      marks := new bool[SECTORS](_ => false);
      clean := true;
    }

    /** FLASH_EraseSector */
    method EraseSector(s: nat)
      requires Valid()
      modifies words
      ensures words[..] == Erased(old(words[..]), s)
    {
      ghost var was := words[..];
      for i := 0 to words.Length
        invariant forall j :: 0 <= j < words.Length ==> words[j] == if j < i then Erased(was, s)[j] else was[j]
      {
        if SectorOf(AddressOf(i)) == s {
          words[i] := ONES;
        }
      }
    }

    method EraseSectorOnce(s: nat)
      requires Valid() && s < SECTORS
      modifies words, marks
      ensures words[..] == if old(marks[s]) then old(words[..]) else Erased(old(words[..]), s)
      ensures marks[..] == old(marks[..])[s := true]
    {
      if !marks[s] {
        EraseSector(s);
        marks[s] := true;
      }
    }

    /** rst_addr_erase_mark */
    method ResetMark(addr: nat)
      requires Valid()
      modifies marks
      ensures marks[..] == old(marks[..])[SectorOf(addr) := false]
    {
      marks[SectorOf(addr)] := false;
    }

    /** FLASH_ProgramWord for every word of the buffer. */
    method Program(at: nat, buf: seq<Word>)
      requires Valid() && at + |buf| <= words.Length
      modifies this`clean, words
      ensures words[..] == Programmed(old(words[..]), at, buf)
      ensures clean == (old(clean) && Blank(old(words[..]), at, |buf|))
    {
      ghost var was := words[..];
      for i := 0 to |buf|
        invariant forall j :: 0 <= j < words.Length ==>
                    words[j] == if at <= j < at + i then And(was[j], buf[j - at]) else was[j]
        invariant clean == (old(clean) && Blank(was, at, i))
      {
        clean := clean && words[at + i] == ONES;
        words[at + i] := And(words[at + i], buf[i]);
      }
    }

    /**
    STMFLASH_write_bytes; `buf` is the buffer read as words. `outside` reports a range that is
    not in the main flash, or not aligned to words; nothing is modelled for it.
    */
    method WriteBytes(addr: nat, buf: seq<Word>, len: nat) returns (ret: int, outside: bool)
      requires Valid() && (len % 4 == 0 ==> len == 4 * |buf|)
      modifies this`clean, words, marks
      ensures ret == if len % 4 != 0 || len > 256 || addr < BASE then -1 else 0
      ensures outside <==> ret == 0 && !(addr % 4 == 0 && addr + len <= BASE + SIZE)
      ensures ret == -1 || outside ==> words[..] == old(words[..]) && marks[..] == old(marks[..]) && clean == old(clean)
      ensures ret == 0 && !outside ==>
                var s := SectorOf(addr);
                var ready := if old(marks[s]) then old(words[..]) else Erased(old(words[..]), s);
                && words[..] == Programmed(ready, (addr - BASE) / 4, buf)
                && marks[..] == old(marks[..])[s := true]
                && clean == (old(clean) && Blank(ready, (addr - BASE) / 4, |buf|))
    {
      if len % 4 != 0 || len > 256 || addr < BASE { return -1, false; }
      if addr % 4 != 0 || addr + len > BASE + SIZE { return 0, true; }
      EraseSectorOnce(SectorOf(addr));
      Program((addr - BASE) / 4, buf);
      return 0, false;
    }
  }

  /** Word i of the buffer will be held: its sector was erased, or no bit has to be set again. */
  predicate Takes(words: seq<Word>, s: nat, at: nat, buf: seq<Word>, i: nat)
    requires i < |buf| && at + i < |words|
  {
    SectorOf(AddressOf(at + i)) == s || And(words[at + i], buf[i]) == buf[i]
  }

  lemma StoredAt(words: seq<Word>, s: nat, at: nat, buf: seq<Word>, i: nat)
    requires i < |buf| && at + |buf| <= |words|
    ensures Programmed(Erased(words, s), at, buf)[at + i] == buf[i] <==> Takes(words, s, at, buf, i)
  {
    OnesAnd(buf[i]);
  }

  /**
  Programming a buffer after erasing sector `s` stores it exactly if and only if every word
  outside the sector can take it; the writer erases one sector however far the buffer reaches.
  */
  lemma StoresExactly(words: seq<Word>, s: nat, at: nat, buf: seq<Word>)
    requires at + |buf| <= |words|
    ensures Programmed(Erased(words, s), at, buf)[at..at + |buf|] == buf
            <==> forall i :: 0 <= i < |buf| ==> Takes(words, s, at, buf, i)
  {
    var after := Programmed(Erased(words, s), at, buf);
    forall i | 0 <= i < |buf|
      ensures after[at..at + |buf|][i] == buf[i] <==> Takes(words, s, at, buf, i)
    {
      StoredAt(words, s, at, buf, i);
    }
  }
}
