/** Raw address operations (`Address` in src/address.rs).

    An `Address` is a bare location. Every operation here is a pure function
    of the memory it is given: reads return bytes or values, writes return the
    updated memory. The source performs these accesses through unchecked raw
    pointers; the obligation that the touched bytes exist is the caller's, and
    appears as a `Mapped` precondition. The only checks the source does make,
    against a null address and an empty offset chain, are modelled as the
    `false` / `None` results they produce.
 */
module RawAddress {
  import opened Mem
  import opened LittleEndian

  /** A non-owning handle to a memory location. */
  datatype Address = Address(ptr: nat)

  /** `read_memory`: copy `size` bytes starting at the address. */
  function ReadMemory(mem: Memory, a: Address, size: nat): (r: seq<byte>)
    requires Mapped(mem, a.ptr, size)
    ensures |r| == size
    ensures forall i :: 0 <= i < size ==> r[i] == mem[a.ptr + i]
    decreases size
  {
    if size == 0 then []
    else [mem[a.ptr]] + ReadMemory(mem, Address(a.ptr + 1), size - 1)
  }

  /** `write_memory`: store `bytes` one by one, first byte at the address. */
  function WriteMemory(mem: Memory, a: Address, bytes: seq<byte>): (m': Memory)
    requires Mapped(mem, a.ptr, |bytes|)
    ensures UnchangedOutside(mem, m', a.ptr, |bytes|)
    ensures forall i :: 0 <= i < |bytes| ==> a.ptr + i in m' && m'[a.ptr + i] == bytes[i]
    decreases |bytes|
  {
    if |bytes| == 0 then mem
    else
      var m1 := mem[a.ptr := bytes[0]];
      assert m1.Keys == mem.Keys;
      MappedSameKeys(mem, m1, a.ptr + 1, |bytes| - 1);
      WriteMemory(m1, Address(a.ptr + 1), bytes[1..])
  }

  /** Reading back what was just written gives the written bytes. */
  lemma ReadAfterWrite(mem: Memory, a: Address, bytes: seq<byte>)
    requires Mapped(mem, a.ptr, |bytes|)
    ensures Mapped(WriteMemory(mem, a, bytes), a.ptr, |bytes|)
    ensures ReadMemory(WriteMemory(mem, a, bytes), a, |bytes|) == bytes
  {
    MappedSameKeys(mem, WriteMemory(mem, a, bytes), a.ptr, |bytes|);
  }

  /** A second write of the same length over the same bytes hides the first. */
  lemma WriteOverwrites(mem: Memory, a: Address, first: seq<byte>, second: seq<byte>)
    requires Mapped(mem, a.ptr, |first|)
    requires |second| == |first|
    ensures Mapped(WriteMemory(mem, a, first), a.ptr, |second|)
    ensures WriteMemory(WriteMemory(mem, a, first), a, second) == WriteMemory(mem, a, second)
  {
    var m1 := WriteMemory(mem, a, first);
    MappedSameKeys(mem, m1, a.ptr, |second|);
    var lhs := WriteMemory(m1, a, second);
    var rhs := WriteMemory(mem, a, second);
    forall x | x in lhs
      ensures lhs[x] == rhs[x]
    {
      if a.ptr <= x < a.ptr + |second| {
        assert lhs[a.ptr + (x - a.ptr)] == second[x - a.ptr];
      }
    }
  }

  /** Writing, at each address, the byte already stored there changes
      nothing. */
  lemma WriteSame(mem: Memory, a: Address, bytes: seq<byte>)
    requires Mapped(mem, a.ptr, |bytes|)
    requires forall i :: 0 <= i < |bytes| ==> bytes[i] == mem[a.ptr + i]
    ensures WriteMemory(mem, a, bytes) == mem
  {
    var m' := WriteMemory(mem, a, bytes);
    forall x | x in m'
      ensures m'[x] == mem[x]
    {
      if a.ptr <= x < a.ptr + |bytes| {
        var i := x - a.ptr;
        assert m'[a.ptr + i] == bytes[i];
      }
    }
  }

  /** Writing the bytes that are already there changes nothing. */
  lemma WriteWhatIsThere(mem: Memory, a: Address, size: nat)
    requires Mapped(mem, a.ptr, size)
    ensures WriteMemory(mem, a, ReadMemory(mem, a, size)) == mem
  {
    WriteSame(mem, a, ReadMemory(mem, a, size));
  }

  /** `copy_memory`: copy `size` bytes from `source` to the address. The
      source uses `copy_nonoverlapping`, whose contract forbids overlapping
      ranges; the precondition carries that contract over. */
  function CopyMemory(mem: Memory, a: Address, source: nat, size: nat): (m': Memory)
    requires Mapped(mem, source, size) && Mapped(mem, a.ptr, size)
    requires source + size <= a.ptr || a.ptr + size <= source
    ensures UnchangedOutside(mem, m', a.ptr, size)
    ensures Mapped(m', a.ptr, size)
    ensures ReadMemory(m', a, size) == ReadMemory(mem, Address(source), size)
  {
    var bytes := ReadMemory(mem, Address(source), size);
    ReadAfterWrite(mem, a, bytes);
    WriteMemory(mem, a, bytes)
  }

  /** `fill_memory`: store `size` copies of `b` starting at the address. */
  function FillMemory(mem: Memory, a: Address, b: byte, size: nat): (m': Memory)
    requires Mapped(mem, a.ptr, size)
    ensures UnchangedOutside(mem, m', a.ptr, size)
    ensures Mapped(m', a.ptr, size)
    ensures ReadMemory(m', a, size) == seq(size, _ => b)
  {
    var bytes := seq(size, _ => b);
    ReadAfterWrite(mem, a, bytes);
    WriteMemory(mem, a, bytes)
  }

  /** `read::<T>`: the value of width `w` whose little-endian bytes are at
      the address. */
  function Read(mem: Memory, a: Address, w: Width): (v: nat)
    requires Mapped(mem, a.ptr, w.Size())
    ensures v < w.Bound()
    ensures Encode(v, w.Size()) == ReadMemory(mem, a, w.Size())
  {
    var bytes := ReadMemory(mem, a, w.Size());
    EncodeDecode(bytes);
    Decode(bytes)
  }

  /** `write::<T>`: store `value` as `w.Size()` little-endian bytes. */
  function Write(mem: Memory, a: Address, w: Width, value: nat): (m': Memory)
    requires value < w.Bound()
    requires Mapped(mem, a.ptr, w.Size())
    ensures UnchangedOutside(mem, m', a.ptr, w.Size())
    ensures Mapped(m', a.ptr, w.Size())
    ensures forall i :: 0 <= i < w.Size() ==> a.ptr + i in m' && m'[a.ptr + i] == Encode(value, w.Size())[i]
    ensures Read(m', a, w) == value
  {
    var bytes := Encode(value, w.Size());
    var m' := WriteMemory(mem, a, bytes);
    ReadAfterWrite(mem, a, bytes);
    DecodeEncode(value, w.Size());
    m'
  }

  /** The pointer-sized value stored at `p`. */
  function ReadPointer(mem: Memory, p: nat): (v: nat)
    requires Mapped(mem, p, POINTER_SIZE)
    ensures v < ADDRESS_LIMIT
    ensures Encode(v, POINTER_SIZE) == ReadMemory(mem, Address(p), POINTER_SIZE)
  {
    Read(mem, Address(p), PointerWidth)
  }

  /** The address `[ptr] + offset` a single-level pointer access targets. */
  function PointerTarget(mem: Memory, a: Address, offset: nat): nat
    requires Mapped(mem, a.ptr, POINTER_SIZE)
  {
    ReadPointer(mem, a.ptr) + offset
  }

  /** What a single-level pointer access needs: when the address is not
      null, its pointer cell and the `n` target bytes exist. */
  predicate PointerAccessible(mem: Memory, a: Address, offset: nat, n: nat)
  {
    a.ptr != NULL ==> Mapped(mem, a.ptr, POINTER_SIZE) && Mapped(mem, PointerTarget(mem, a, offset), n)
  }

  /** `write_ptr_val`: store `value` at `[ptr] + offset`. A null address is
      refused with `false` and leaves memory as it was. */
  function WritePtrVal(mem: Memory, a: Address, offset: nat, w: Width, value: nat): (res: (bool, Memory))
    requires value < w.Bound()
    requires PointerAccessible(mem, a, offset, w.Size())
    ensures a.ptr == NULL ==> !res.0 && res.1 == mem
    ensures a.ptr != NULL ==>
      && res.0
      && var t := PointerTarget(mem, a, offset);
      && UnchangedOutside(mem, res.1, t, w.Size())
      && Mapped(res.1, t, w.Size())
      && Read(res.1, Address(t), w) == value
  {
    if a.ptr == NULL then (false, mem)
    else (true, Write(mem, Address(PointerTarget(mem, a, offset)), w, value))
  }

  /** `read_ptr_val`: the value at `[ptr] + offset`, or `None` for a null
      address. */
  function ReadPtrVal(mem: Memory, a: Address, offset: nat, w: Width): (r: Option<nat>)
    requires PointerAccessible(mem, a, offset, w.Size())
    ensures r.None? <==> a.ptr == NULL
    ensures r.Some? ==>
      && r.value < w.Bound()
      && Encode(r.value, w.Size()) == ReadMemory(mem, Address(PointerTarget(mem, a, offset)), w.Size())
  {
    if a.ptr == NULL then None
    else Some(Read(mem, Address(PointerTarget(mem, a, offset)), w))
  }

  /** Reading through a pointer after writing through it returns the written
      value, provided the write does not land on the pointer cell itself. */
  lemma ReadPtrValAfterWritePtrVal(mem: Memory, a: Address, offset: nat, w: Width, value: nat)
    requires value < w.Bound()
    requires a.ptr != NULL
    requires PointerAccessible(mem, a, offset, w.Size())
    requires var t := PointerTarget(mem, a, offset);
      t + w.Size() <= a.ptr || a.ptr + POINTER_SIZE <= t
    ensures var m' := WritePtrVal(mem, a, offset, w, value).1;
      PointerAccessible(m', a, offset, w.Size()) && ReadPtrVal(m', a, offset, w) == Some(value)
  {
    var t := PointerTarget(mem, a, offset);
    var m' := Write(mem, Address(t), w, value);
    assert WritePtrVal(mem, a, offset, w, value).1 == m';
    PointerCellUnchanged(mem, m', a.ptr, t, w.Size());
    assert PointerTarget(m', a, offset) == t;
    assert ReadPtrVal(m', a, offset, w) == Some(Read(m', Address(t), w));
  }

  /** A pointer cell outside a changed range still holds the same pointer. */
  lemma PointerCellUnchanged(mem: Memory, m': Memory, p: nat, lo: nat, n: nat)
    requires Mapped(mem, p, POINTER_SIZE)
    requires UnchangedOutside(mem, m', lo, n)
    requires lo + n <= p || p + POINTER_SIZE <= lo
    ensures Mapped(m', p, POINTER_SIZE)
    ensures ReadPointer(m', p) == ReadPointer(mem, p)
  {
    MappedSameKeys(mem, m', p, POINTER_SIZE);
    var before := ReadMemory(mem, Address(p), POINTER_SIZE);
    var after := ReadMemory(m', Address(p), POINTER_SIZE);
    assert before == after;
    calc {
      ReadPointer(m', p);
      Decode(after);
      Decode(before);
      ReadPointer(mem, p);
    }
  }

  // Multi-level pointers.

  /** The pointer view of memory: for every address at which a whole
      pointer-sized cell exists, the pointer stored there, which is the
      address-sized value whose little-endian encoding fills the cell. */
  function Pointers(mem: Memory): (ptrs: map<nat, nat>)
    ensures forall p :: p in ptrs <==> p in mem && Mapped(mem, p, POINTER_SIZE)
    ensures forall p :: p in ptrs ==>
      ptrs[p] < ADDRESS_LIMIT && Encode(ptrs[p], POINTER_SIZE) == ReadMemory(mem, Address(p), POINTER_SIZE)
  {
    map p | p in mem && Mapped(mem, p, POINTER_SIZE) :: ReadPointer(mem, p)
  }

  /** Every intermediate pointer cell of the chain exists: starting from
      `base`, each offset but the last names a pointer cell whose content is
      the next base. */
  predicate ChainMapped(ptrs: map<nat, nat>, base: nat, offsets: seq<nat>)
    decreases |offsets|
  {
    |offsets| <= 1 ||
    (base + offsets[0] in ptrs && ChainMapped(ptrs, ptrs[base + offsets[0]], offsets[1..]))
  }

  /** The final target of a non-empty chain: the last offset added to the
      base reached after dereferencing through all the others. */
  function ChainTarget(ptrs: map<nat, nat>, base: nat, offsets: seq<nat>): nat
    requires |offsets| >= 1
    requires ChainMapped(ptrs, base, offsets)
    decreases |offsets|
  {
    if |offsets| == 1 then base + offsets[0]
    else ChainTarget(ptrs, ptrs[base + offsets[0]], offsets[1..])
  }

  /** What a multi-level access needs: when the address is not null, its
      pointer cell exists (the source dereferences it before looking at the
      offsets), and for a non-empty chain every intermediate cell and the `n`
      target bytes exist. */
  predicate ChainAccessible(mem: Memory, a: Address, offsets: seq<nat>, n: nat)
  {
    a.ptr != NULL ==>
      && Mapped(mem, a.ptr, POINTER_SIZE)
      && (|offsets| >= 1 ==>
            && ChainMapped(Pointers(mem), ReadPointer(mem, a.ptr), offsets)
            && Mapped(mem, ChainTarget(Pointers(mem), ReadPointer(mem, a.ptr), offsets), n))
  }

  /** The target of a multi-level access from a non-null address. */
  function MultilevelTarget(mem: Memory, a: Address, offsets: seq<nat>): nat
    requires a.ptr != NULL && |offsets| >= 1
    requires ChainAccessible(mem, a, offsets, 0)
  {
    ChainTarget(Pointers(mem), ReadPointer(mem, a.ptr), offsets)
  }

  /** `write_multilevel_ptr_val`: store `value` at the end of the chain.
      A null address or an empty chain is refused with `false` and leaves
      memory as it was; a chain of one offset is `write_ptr_val`. */
  function WriteMultilevelPtrVal(mem: Memory, a: Address, offsets: seq<nat>, w: Width, value: nat): (res: (bool, Memory))
    requires value < w.Bound()
    requires ChainAccessible(mem, a, offsets, w.Size())
    ensures (a.ptr == NULL || |offsets| == 0) ==> !res.0 && res.1 == mem
    ensures a.ptr != NULL && |offsets| >= 1 ==>
      && res.0
      && var t := MultilevelTarget(mem, a, offsets);
      && UnchangedOutside(mem, res.1, t, w.Size())
      && Mapped(res.1, t, w.Size())
      && Read(res.1, Address(t), w) == value
    ensures |offsets| == 1 ==> res == WritePtrVal(mem, a, offsets[0], w, value)
  {
    if a.ptr == NULL || |offsets| == 0 then (false, mem)
    else
      var t := MultilevelTarget(mem, a, offsets);
      assert |offsets| == 1 ==> t == PointerTarget(mem, a, offsets[0]);
      (true, Write(mem, Address(t), w, value))
  }

  /** `read_multilevel_ptr_val`: the value at the end of the chain, or
      `None` for a null address or an empty chain; a chain of one offset is
      `read_ptr_val`. */
  function ReadMultilevelPtrVal(mem: Memory, a: Address, offsets: seq<nat>, w: Width): (r: Option<nat>)
    requires ChainAccessible(mem, a, offsets, w.Size())
    ensures r.None? <==> a.ptr == NULL || |offsets| == 0
    ensures r.Some? ==>
      && r.value < w.Bound()
      && Encode(r.value, w.Size()) == ReadMemory(mem, Address(MultilevelTarget(mem, a, offsets)), w.Size())
    ensures |offsets| == 1 ==> r == ReadPtrVal(mem, a, offsets[0], w)
  {
    if a.ptr == NULL || |offsets| == 0 then None
    else
      var t := MultilevelTarget(mem, a, offsets);
      assert |offsets| == 1 ==> t == PointerTarget(mem, a, offsets[0]);
      Some(Read(mem, Address(t), w))
  }

  /** A chain `first + rest` exists exactly when `first` does, the cell it
      ends at is a pointer cell, and `rest` exists from the pointer held
      there. */
  lemma {:induction false} ChainSplitMapped(ptrs: map<nat, nat>, base: nat, first: seq<nat>, rest: seq<nat>)
    requires |first| >= 1 && |rest| >= 1
    ensures ChainMapped(ptrs, base, first + rest) <==>
      && ChainMapped(ptrs, base, first)
      && ChainTarget(ptrs, base, first) in ptrs
      && ChainMapped(ptrs, ptrs[ChainTarget(ptrs, base, first)], rest)
    decreases |first|
  {
    var all := first + rest;
    assert all[0] == first[0];
    if |first| == 1 {
      assert all[1..] == rest;
    } else {
      assert all[1..] == first[1..] + rest;
      if base + first[0] in ptrs {
        ChainSplitMapped(ptrs, ptrs[base + first[0]], first[1..], rest);
      }
    }
  }

  /** Following `first + rest` is following `first`, dereferencing the cell
      it ends at, and following `rest` from there: a chain of k offsets makes
      k - 1 intermediate dereferences. */
  lemma {:induction false} ChainSplit(ptrs: map<nat, nat>, base: nat, first: seq<nat>, rest: seq<nat>)
    requires |first| >= 1 && |rest| >= 1
    requires ChainMapped(ptrs, base, first + rest)
    ensures ChainMapped(ptrs, base, first)
    ensures ChainTarget(ptrs, base, first) in ptrs
    ensures ChainMapped(ptrs, ptrs[ChainTarget(ptrs, base, first)], rest)
    ensures ChainTarget(ptrs, base, first + rest)
        == ChainTarget(ptrs, ptrs[ChainTarget(ptrs, base, first)], rest)
    decreases |first|
  {
    ChainSplitMapped(ptrs, base, first, rest);
    var all := first + rest;
    assert all[0] == first[0];
    if |first| == 1 {
      assert all[1..] == rest;
    } else {
      assert all[1..] == first[1..] + rest;
      ChainSplit(ptrs, ptrs[base + first[0]], first[1..], rest);
    }
  }

  /** None of the chain's pointer cells overlaps the `n` bytes at `lo`. */
  predicate ChainAvoids(ptrs: map<nat, nat>, base: nat, offsets: seq<nat>, lo: nat, n: nat)
    requires ChainMapped(ptrs, base, offsets)
    decreases |offsets|
  {
    |offsets| <= 1 ||
    (var cell := base + offsets[0];
     && (lo + n <= cell || cell + POINTER_SIZE <= lo)
     && ChainAvoids(ptrs, ptrs[cell], offsets[1..], lo, n))
  }

  /** A change outside the chain's pointer cells leaves the chain, and so its
      target, as it was. */
  lemma ChainFrame(mem: Memory, m': Memory, base: nat, offsets: seq<nat>, lo: nat, n: nat)
    requires |offsets| >= 1
    requires ChainMapped(Pointers(mem), base, offsets)
    requires ChainAvoids(Pointers(mem), base, offsets, lo, n)
    requires UnchangedOutside(mem, m', lo, n)
    ensures ChainMapped(Pointers(m'), base, offsets)
    ensures ChainTarget(Pointers(m'), base, offsets) == ChainTarget(Pointers(mem), base, offsets)
  {
    var before := Pointers(mem);
    var after := Pointers(m');
    forall c | c in before && (lo + n <= c || c + POINTER_SIZE <= lo)
      ensures c in after && after[c] == before[c]
    {
      PointerCellUnchanged(mem, m', c, lo, n);
    }
    ViewFrame(before, after, base, offsets, lo, n);
  }

  /** The same, for any two pointer views that agree on every cell outside
      the `n` bytes at `lo`. */
  lemma {:induction false} ViewFrame(before: map<nat, nat>, after: map<nat, nat>, base: nat, offsets: seq<nat>, lo: nat, n: nat)
    requires |offsets| >= 1
    requires ChainMapped(before, base, offsets)
    requires ChainAvoids(before, base, offsets, lo, n)
    requires forall c :: c in before && (lo + n <= c || c + POINTER_SIZE <= lo) ==> c in after && after[c] == before[c]
    ensures ChainMapped(after, base, offsets)
    ensures ChainTarget(after, base, offsets) == ChainTarget(before, base, offsets)
    decreases |offsets|
  {
    if |offsets| > 1 {
      var cell := base + offsets[0];
      ViewFrame(before, after, before[cell], offsets[1..], lo, n);
    }
  }

  /** Reading through a chain after writing through it returns the written
      value, provided the write lands on neither the address's own pointer
      cell nor any intermediate pointer cell of the chain. */
  lemma ReadMultilevelAfterWrite(mem: Memory, a: Address, offsets: seq<nat>, w: Width, value: nat)
    requires value < w.Bound()
    requires a.ptr != NULL && |offsets| >= 1
    requires ChainAccessible(mem, a, offsets, w.Size())
    requires var t := MultilevelTarget(mem, a, offsets);
      && (t + w.Size() <= a.ptr || a.ptr + POINTER_SIZE <= t)
      && ChainAvoids(Pointers(mem), ReadPointer(mem, a.ptr), offsets, t, w.Size())
    ensures var m' := WriteMultilevelPtrVal(mem, a, offsets, w, value).1;
      ChainAccessible(m', a, offsets, w.Size()) && ReadMultilevelPtrVal(m', a, offsets, w) == Some(value)
  {
    var m' := WriteMultilevelPtrVal(mem, a, offsets, w, value).1;
    var t := MultilevelTarget(mem, a, offsets);
    PointerCellUnchanged(mem, m', a.ptr, t, w.Size());
    ChainFrame(mem, m', ReadPointer(mem, a.ptr), offsets, t, w.Size());
  }
}
