/** The sparse backing store (`class Memory`, main_smp.cpp): a directory of
    4096 one-megabyte pages, each allocated on first touch and filled with
    0xFF. Every 32-bit address is valid. */
module SparseMemory {
  import opened Words

  const PageCount: int := 0x1000
  const PageSize: int := 0x10_0000
  /** Content of a byte that has never been written. */
  const Sentinel: Byte := 0xFF

  /** What the store holds, abstractly: the bytes written so far; every
      other address reads as the sentinel. */
  type Store = map<U32, Byte>

  function Lookup(store: Store, a: U32): Byte
  {
    if a in store then store[a] else Sentinel
  }

  /** Directory index of an address: `address >> 20`. */
  function Page(a: U32): int
  {
    a / PageSize
  }

  /** Position inside the page: `address & 0xFFFFF`. */
  function Offset(a: U32): int
  {
    a % PageSize
  }

  /** Every 32-bit address names one of the 4096 pages and a byte inside it,
      and the two together determine the address. */
  lemma AddressSplit(a: U32, b: U32)
    ensures 0 <= Page(a) < PageCount && 0 <= Offset(a) < PageSize
    ensures a == Page(a) * PageSize + Offset(a)
    ensures Page(a) == Page(b) && Offset(a) == Offset(b) ==> a == b
  {
    assert b == Page(b) * PageSize + Offset(b);
  }

  lemma LookupEmpty(a: U32)
    ensures Lookup(map[], a) == Sentinel
  {
  }

  /** Read-after-write, and a write leaves every other address alone. */
  lemma LookupUpdate(store: Store, a: U32, v: Byte, b: U32)
    ensures Lookup(store[a := v], b) == if b == a then v else Lookup(store, b)
  {
  }

  type Directory = map<int, seq<Byte>>

  /** Every allocated page lies in the directory and is one megabyte long. */
  ghost predicate WellPaged(pages: Directory)
  {
    forall p :: p in pages ==> 0 <= p < PageCount && |pages[p]| == PageSize
  }

  /** The byte at `a` as the page directory holds it (no allocation). */
  ghost function Observe(pages: Directory, a: U32): Byte
    requires WellPaged(pages)
  {
    AddressSplit(a, a);
    if Page(a) in pages then pages[Page(a)][Offset(a)] else Sentinel
  }

  /** The directory represents the store: both give the same byte everywhere. */
  ghost predicate Represents(pages: Directory, store: Store)
  {
    WellPaged(pages) && forall a: U32 :: Observe(pages, a) == Lookup(store, a)
  }

  class Memory {
    /** The page directory: page number to page contents; an absent page is a NULL entry. */
    var pages: Directory
    /** Abstract view: the bytes written through this memory. */
    ghost var Contents: Store

    ghost predicate Valid()
      reads this
    {
      Represents(pages, Contents)
    }

    constructor ()
      ensures Valid() && Contents == map[] && pages == map[]
    {
      pages := map[];
      Contents := map[];
    }

    /** `get`: makes sure the page of `a` exists, filled with 0xFF if it is new. */
    method Touch(a: U32)
      requires Valid()
      modifies this
      ensures Valid() && Contents == old(Contents)
      ensures pages.Keys == old(pages.Keys) + {Page(a)}
    {
      AddressSplit(a, a);
      if Page(a) !in pages {
        ghost var before := pages;
        pages := pages[Page(a) := seq(PageSize, _ => Sentinel)];
        forall b: U32
          ensures Observe(pages, b) == Lookup(Contents, b)
        {
          AddressSplit(b, b);
          assert Observe(before, b) == Lookup(Contents, b);
        }
      }
    }

    /** `mem[address]` used as a value: allocates the page, then reads. */
    method Read(a: U32) returns (v: Byte)
      requires Valid()
      modifies this
      ensures Valid() && Contents == old(Contents)
      ensures pages.Keys == old(pages.Keys) + {Page(a)}
      ensures v == Lookup(Contents, a)
    {
      Touch(a);
      AddressSplit(a, a);
      assert Observe(pages, a) == Lookup(Contents, a);
      v := pages[Page(a)][Offset(a)];
    }

    /** `mem[address] = v`: allocates the page, then stores. */
    method Write(a: U32, v: Byte)
      requires Valid()
      modifies this
      ensures Valid() && Contents == old(Contents)[a := v]
      ensures pages.Keys == old(pages.Keys) + {Page(a)}
    {
      Touch(a);
      AddressSplit(a, a);
      ghost var before, was := pages, Contents;
      var page: seq<Byte> := pages[Page(a)];
      pages := pages[Page(a) := page[Offset(a) := v]];
      Contents := Contents[a := v];
      forall b: U32
        ensures Observe(pages, b) == Lookup(Contents, b)
      {
        AddressSplit(b, a);
        assert Observe(before, b) == Lookup(was, b);
      }
    }
  }
}
