/** Reversible edits (`MemoryEdit`, `MemoryPatch`, `MemoryDataEdit` in
    src/memory_edit.rs).

    An edit remembers a target, the payload `edit` writes there and the
    original content it captured once, when it was built; `revert` writes the
    captured content back. The source's two-operation trait with two
    implementations is a datatype with two constructors here, and `edit` /
    `revert` are functions from memory to memory. They take the edit by value
    and return only the new memory, so neither can change the payloads.
 */
module MemoryEdit {
  import opened Mem
  import opened LittleEndian
  import opened RawAddress

  datatype MemoryEdit =
      /** A byte-buffer patch. */
    | MemoryPatch(ptr: Address, replaceBytes: seq<byte>, retainBytes: seq<byte>)
      /** A typed-value edit: the payloads are values of width `width`. */
    | MemoryDataEdit(ptr: Address, width: Width, replaceData: nat, retainData: nat)
  {
    /** What construction guarantees: the two payloads have the same size. */
    predicate Valid()
    {
      match this
      case MemoryPatch(_, replace, retain) => |retain| == |replace|
      case MemoryDataEdit(_, w, replace, retain) => replace < w.Bound() && retain < w.Bound()
    }

    /** The number of bytes the edit covers. */
    function Size(): nat
    {
      match this
      case MemoryPatch(_, replace, _) => |replace|
      case MemoryDataEdit(_, w, _, _) => w.Size()
    }

    /** The bytes `edit` leaves at the target. */
    function ReplaceImage(): (r: seq<byte>)
      requires Valid()
      ensures |r| == Size()
    {
      match this
      case MemoryPatch(_, replace, _) => replace
      case MemoryDataEdit(_, w, replace, _) => Encode(replace, w.Size())
    }

    /** The bytes `revert` leaves at the target. */
    function RetainImage(): (r: seq<byte>)
      requires Valid()
      ensures |r| == Size()
    {
      match this
      case MemoryPatch(_, _, retain) => retain
      case MemoryDataEdit(_, w, _, retain) => Encode(retain, w.Size())
    }
  }

  /** `MemoryPatch::new`: remember `bytes` and capture as many bytes as are
      currently at the target. Memory is only read. */
  function NewMemoryPatch(mem: Memory, ptr: Address, bytes: seq<byte>): (e: MemoryEdit)
    requires Mapped(mem, ptr.ptr, |bytes|)
    ensures e.MemoryPatch? && e.Valid()
    ensures e.ptr == ptr && e.replaceBytes == bytes
    ensures |e.retainBytes| == |bytes|
    ensures forall i :: 0 <= i < |bytes| ==> e.retainBytes[i] == mem[ptr.ptr + i]
  {
    MemoryPatch(ptr, bytes, ReadMemory(mem, ptr, |bytes|))
  }

  /** `MemoryDataEdit::new`: remember `data` and capture the value of the
      same width currently at the target. Memory is only read. */
  function NewMemoryDataEdit(mem: Memory, ptr: Address, w: Width, data: nat): (e: MemoryEdit)
    requires data < w.Bound()
    requires Mapped(mem, ptr.ptr, w.Size())
    ensures e.MemoryDataEdit? && e.Valid()
    ensures e.ptr == ptr && e.width == w && e.replaceData == data
    ensures Encode(e.retainData, w.Size()) == ReadMemory(mem, ptr, w.Size())
  {
    MemoryDataEdit(ptr, w, data, Read(mem, ptr, w))
  }

  /** `edit`: write the replacement payload at the target. */
  function Edit(e: MemoryEdit, mem: Memory): (m': Memory)
    requires e.Valid()
    requires Mapped(mem, e.ptr.ptr, e.Size())
    ensures UnchangedOutside(mem, m', e.ptr.ptr, e.Size())
    ensures Mapped(m', e.ptr.ptr, e.Size())
    ensures ReadMemory(m', e.ptr, e.Size()) == e.ReplaceImage()
    ensures e.MemoryDataEdit? ==> Read(m', e.ptr, e.width) == e.replaceData
  {
    var m' := match e
      case MemoryPatch(ptr, replace, _) => WriteMemory(mem, ptr, replace)
      case MemoryDataEdit(ptr, w, replace, _) => Write(mem, ptr, w, replace);
    ReadAfterWrite(mem, e.ptr, e.ReplaceImage());
    m'
  }

  /** `revert`: write the captured payload back at the target. */
  function Revert(e: MemoryEdit, mem: Memory): (m': Memory)
    requires e.Valid()
    requires Mapped(mem, e.ptr.ptr, e.Size())
    ensures UnchangedOutside(mem, m', e.ptr.ptr, e.Size())
    ensures Mapped(m', e.ptr.ptr, e.Size())
    ensures ReadMemory(m', e.ptr, e.Size()) == e.RetainImage()
    ensures e.MemoryDataEdit? ==> Read(m', e.ptr, e.width) == e.retainData
  {
    var m' := match e
      case MemoryPatch(ptr, _, retain) => WriteMemory(mem, ptr, retain)
      case MemoryDataEdit(ptr, w, _, retain) => Write(mem, ptr, w, retain);
    ReadAfterWrite(mem, e.ptr, e.RetainImage());
    m'
  }

  /** Both operations are a write of the edit's whole range. */
  lemma EditIsWrite(e: MemoryEdit, mem: Memory)
    requires e.Valid()
    requires Mapped(mem, e.ptr.ptr, e.Size())
    ensures Edit(e, mem) == WriteMemory(mem, e.ptr, e.ReplaceImage())
    ensures Revert(e, mem) == WriteMemory(mem, e.ptr, e.RetainImage())
  {
  }

  /** The two operations of the trait. */
  datatype Call = EditCall | RevertCall

  function Step(e: MemoryEdit, mem: Memory, c: Call): (m': Memory)
    requires e.Valid()
    requires Mapped(mem, e.ptr.ptr, e.Size())
    ensures m'.Keys == mem.Keys
  {
    match c
    case EditCall => Edit(e, mem)
    case RevertCall => Revert(e, mem)
  }

  /** Memory after performing `calls` in order. */
  function Drive(e: MemoryEdit, mem: Memory, calls: seq<Call>): (m': Memory)
    requires e.Valid()
    requires Mapped(mem, e.ptr.ptr, e.Size())
    ensures m'.Keys == mem.Keys
    decreases |calls|
  {
    if |calls| == 0 then mem
    else
      var m1 := Step(e, mem, calls[0]);
      MappedSameKeys(mem, m1, e.ptr.ptr, e.Size());
      Drive(e, m1, calls[1..])
  }

  /** Each call overwrites whatever the previous one left: whatever came
      before, the result is that of the call alone. */
  lemma StepOverwrites(e: MemoryEdit, mem: Memory, first: Call, second: Call)
    requires e.Valid()
    requires Mapped(mem, e.ptr.ptr, e.Size())
    ensures Mapped(Step(e, mem, first), e.ptr.ptr, e.Size())
    ensures Step(e, Step(e, mem, first), second) == Step(e, mem, second)
  {
    var m1 := Step(e, mem, first);
    MappedSameKeys(mem, m1, e.ptr.ptr, e.Size());
    EditIsWrite(e, mem);
    EditIsWrite(e, m1);
    var image1 := if first.EditCall? then e.ReplaceImage() else e.RetainImage();
    var image2 := if second.EditCall? then e.ReplaceImage() else e.RetainImage();
    WriteOverwrites(mem, e.ptr, image1, image2);
  }

  /** `edit` is idempotent. */
  lemma EditIdempotent(e: MemoryEdit, mem: Memory)
    requires e.Valid()
    requires Mapped(mem, e.ptr.ptr, e.Size())
    ensures Mapped(Edit(e, mem), e.ptr.ptr, e.Size())
    ensures Edit(e, Edit(e, mem)) == Edit(e, mem)
  {
    StepOverwrites(e, mem, EditCall, EditCall);
  }

  /** `revert` is idempotent. */
  lemma RevertIdempotent(e: MemoryEdit, mem: Memory)
    requires e.Valid()
    requires Mapped(mem, e.ptr.ptr, e.Size())
    ensures Mapped(Revert(e, mem), e.ptr.ptr, e.Size())
    ensures Revert(e, Revert(e, mem)) == Revert(e, mem)
  {
    StepOverwrites(e, mem, RevertCall, RevertCall);
  }

  /** After any non-empty sequence of calls, memory is what the last call
      alone makes of the starting memory. */
  lemma {:induction false} LastCallDecides(e: MemoryEdit, mem: Memory, calls: seq<Call>)
    requires e.Valid()
    requires Mapped(mem, e.ptr.ptr, e.Size())
    requires |calls| >= 1
    ensures Drive(e, mem, calls) == Step(e, mem, calls[|calls| - 1])
    decreases |calls|
  {
    var m1 := Step(e, mem, calls[0]);
    MappedSameKeys(mem, m1, e.ptr.ptr, e.Size());
    if |calls| > 1 {
      LastCallDecides(e, m1, calls[1..]);
      assert calls[1..][|calls[1..]| - 1] == calls[|calls| - 1];
      StepOverwrites(e, mem, calls[0], calls[|calls| - 1]);
    }
  }

  /** An edit freshly built over `mem0`. */
  predicate BuiltOver(e: MemoryEdit, mem0: Memory)
  {
    && e.Valid()
    && Mapped(mem0, e.ptr.ptr, e.Size())
    && ReadMemory(mem0, e.ptr, e.Size()) == e.RetainImage()
  }

  lemma NewIsBuiltOver(mem: Memory, ptr: Address, bytes: seq<byte>, w: Width, data: nat)
    requires Mapped(mem, ptr.ptr, |bytes|)
    requires data < w.Bound() && Mapped(mem, ptr.ptr, w.Size())
    ensures BuiltOver(NewMemoryPatch(mem, ptr, bytes), mem)
    ensures BuiltOver(NewMemoryDataEdit(mem, ptr, w, data), mem)
  {
  }

  /** From the construction state, `edit` then `revert` gives back the whole
      memory as it was when the edit was built. */
  lemma EditThenRevertRestores(e: MemoryEdit, mem0: Memory)
    requires BuiltOver(e, mem0)
    ensures Mapped(Edit(e, mem0), e.ptr.ptr, e.Size())
    ensures Revert(e, Edit(e, mem0)) == mem0
  {
    StepOverwrites(e, mem0, EditCall, RevertCall);
    EditIsWrite(e, mem0);
    WriteWhatIsThere(mem0, e.ptr, e.Size());
  }

  /** Over the memory it was built on, any sequence of calls leaves the
      target holding the replacement payload if the last call was `edit`,
      and leaves the whole memory as it was at construction if there was no
      call or the last call was `revert`. Memory outside the target never
      changes. */
  lemma DriveFromConstruction(e: MemoryEdit, mem0: Memory, calls: seq<Call>)
    requires BuiltOver(e, mem0)
    ensures var m := Drive(e, mem0, calls);
      && UnchangedOutside(mem0, m, e.ptr.ptr, e.Size())
      && (|calls| >= 1 && calls[|calls| - 1] == EditCall ==>
            Mapped(m, e.ptr.ptr, e.Size()) && ReadMemory(m, e.ptr, e.Size()) == e.ReplaceImage())
      && (|calls| == 0 || calls[|calls| - 1] == RevertCall ==> m == mem0)
  {
    if |calls| >= 1 {
      LastCallDecides(e, mem0, calls);
      if calls[|calls| - 1] == RevertCall {
        EditIsWrite(e, mem0);
        WriteWhatIsThere(mem0, e.ptr, e.Size());
      }
    }
  }
}
