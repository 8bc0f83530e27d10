# mnemosyrs core in Dafny

A model of the memory toolkit's core, with proofs about it:

- **`PatternMatch`** (src/pattern_match.rs, module `PatternScan`). It sanitises a textual
  byte pattern such as `"7b ?? 57 07"`. It refuses the result when it is empty or odd in length, or
  when one of its groups is neither a wildcard nor a byte. It compiles the pattern into expected
  bytes and a wildcard mask. It then scans a memory region forwards for the first match, keeping a
  cursor so that `find_next_address` resumes just after the last position probed.
- **`Address`** (src/address.rs, module `RawAddress`). It reads, writes, fills and copies bytes,
  and reads and writes little-endian integers (module `LittleEndian`). It also accesses memory
  through one pointer or through a chain of offsets, with its null guard and its empty-chain guard.
- **`MemoryEdit`, `MemoryPatch`, `MemoryDataEdit`** (src/memory_edit.rs, module `MemoryEdit`).
  These are reversible edits. Each captures the original content once, when it is built, and
  `edit`/`revert` write the replacement or the captured content.
- **`bytes_to_string` / `string_to_bytes`** with `Lettercase` (src/util.rs, module `HexCodec`).
  These are the hex encoder and decoder. Whitespace removal and the character classes are shared
  with the scanner (module `Text`).

Memory is an immutable `map<nat, byte>` (module `Mem`), and address 0 is null. Every operation is a
pure function of the memory it is given, or a method that returns the new state. The source reaches
memory through unchecked raw pointers. Here the caller's obligation that the touched bytes exist is
the `Mapped` precondition. `Mapped` also keeps address arithmetic below 2^64 and keeps a non-empty
range off address 0.

The cursor moves to every probed position, not only to a match, so after a failed search it rests on
the last position probed.
`try_match_at_current_address` compares bytes with `x ^ y == 0`, which the model keeps as `Xor`.

## Model

| member | source | states |
|---|---|---|
| Text.RemoveWhitespace | src/pattern_match.rs:30-32 | the result is no longer than the input and holds no whitespace character |
| Text.RemoveWhitespaceKeeps | src/pattern_match.rs:30-32 | every character kept comes from the input |
| Text.RemoveWhitespaceNone | src/util.rs:29 | a string without whitespace is returned unchanged |
| Text.RemoveWhitespaceAppend | src/util.rs:29 | removing whitespace from a concatenation is removing it from each part and concatenating |
| Text.RemoveWhitespaceAll | src/util.rs:29 | a string made only of whitespace becomes empty |
| Text.RemovePadding | src/util.rs:19-21 | removing whitespace from groups with whitespace padding between them leaves the groups joined together |
| Text.HexValue | src/util.rs:48 | a hex digit's value is below 16 |
| Text.Utf8Length | src/util.rs:31 | the UTF-8 length is at least the number of characters, and equals it for ASCII text |
| Text.RemoveWhitespaceLast | src/pattern_match.rs:30-32 | a last character that is not whitespace stays in last place after whitespace removal |
| Text.NonAsciiLonger | src/pattern_match.rs:34 | a string with a character outside ASCII is longer in UTF-8 bytes than in characters |
| PatternScan.TrimEnd | src/pattern_match.rs:27-29 | the result is a prefix of the input; every character removed is `?` or whitespace; the last character kept is neither, so the whole trailing run goes |
| PatternScan.TrimEndSuffix | src/pattern_match.rs:27-29 | trimming a string that ends in a kept character, followed by any run of `?` and whitespace, gives back exactly that string |
| PatternScan.Sanitize | src/pattern_match.rs:27-32 | no whitespace remains and the last character is not `?`; from a pattern of hex digits, `?` and whitespace, only hex digits and `?` remain |
| PatternScan.SanitizeExample | src/pattern_match.rs:103-110 | `"0a 0b ?? ??   ?? 2e ??   ?? "` sanitises to `"0a0b??????2e"`, and `new` on it succeeds with that pattern and a pattern size of 6 |
| PatternScan.TrimExample | src/pattern_match.rs:103-110 | in that example, trimming removes exactly the trailing `" ??   ?? "` |
| PatternScan.RemoveWhitespaceExample | src/pattern_match.rs:103-110 | in that example, whitespace removal turns `"0a 0b ?? ??   ?? 2e"` into `"0a0b??????2e"` |
| PatternScan.Compile | src/pattern_match.rs:38-57 | for groups that are each a wildcard or parse as a byte: one expected byte and one mask entry per two-character group; the mask is 1 and the byte 0 exactly when either character of the group is `?`; otherwise the mask is 0 and the byte is the group's base-16 value, a leading `+` counting as no digit |
| PatternScan.New | src/pattern_match.rs:14-60 | fails with a format error exactly when the sanitised pattern is empty or odd in UTF-8 length; succeeds exactly when it is non-empty, even in length, ASCII, and every group is a wildcard or parses as a byte, and fails with a byte error otherwise; on success it keeps the sanitised pattern, a size of half its length, the region and a cursor at the region start, and gives each position the mask and byte that `Compile` states |
| PatternScan.NonAsciiLastGroup | src/pattern_match.rs:34-45 | when a sanitised pattern outside ASCII passes the length check, the last group's lookups run past its last character, which is not `?`, so `new` cannot succeed on it |
| PatternScan.TrimBeforeValidate | src/pattern_match.rs:27-36 | `"0a0?"` is refused with a format error, because trimming leaves the odd-length `"0a0"` |
| PatternScan.WildcardGroupNotParsed | src/pattern_match.rs:43-48 | a group holding `?` is never parsed, whatever its other character: `?c1b` gives the mask `[1, 0]` and the bytes `[0, 0x1b]` for any ASCII non-whitespace `c` |
| PatternScan.SignedGroup | src/pattern_match.rs:49-55 | `"+a"` is accepted as the byte 10, because the byte parser takes a leading `+` |
| PatternScan.UnparsedGroupFails | src/pattern_match.rs:49-55 | `"0g"` is refused with a byte error, because a group without `?` must parse |
| PatternScan.Xor | src/pattern_match.rs:86 | the exclusive or of two bytes is zero exactly when they are equal |
| PatternScan.TryMatchAtCurrentAddress | src/pattern_match.rs:82-92 | true exactly when every position of the window at the cursor is a wildcard or holds its expected byte |
| PatternScan.FindAddressFrom | src/pattern_match.rs:70-80 | returns the first matching start among the `memory_size` positions from `from`, and no earlier one matches; returns null when none matches; the cursor is left on the match, or on the last position probed; nothing but the cursor changes |
| PatternScan.FindAddress | src/pattern_match.rs:62-64 | the first match in the region `[memory_start, memory_start + memory_size)`, with the cursor on it, or null when there is none, with the cursor on the region's last position (unmoved for an empty region); only the cursor changes |
| PatternScan.FindNextAddress | src/pattern_match.rs:66-68 | the first match strictly after the cursor, within `memory_size` positions, with the cursor on it, or null when there is none, with the cursor `memory_size` positions further on; only the cursor changes |
| LittleEndian.EncodeDigit | src/address.rs:35-37 | byte `i` of a value's encoding is the value's base-256 digit `i`, least significant first |
| LittleEndian.DecodeEncode | src/address.rs:35-41 | decoding the encoding of a value that fits the width gives the value back |
| LittleEndian.EncodeDecode | src/address.rs:35-41 | encoding the decoded value of a byte sequence gives the bytes back |
| RawAddress.ReadMemory | src/address.rs:10-19 | exactly `size` bytes; byte `i` is the byte at `ptr + i` |
| RawAddress.WriteMemory | src/address.rs:21-25 | byte `ptr + i` becomes `bytes[i]`; every other address, and the set of addresses, stays as it was |
| RawAddress.ReadAfterWrite | src/address.rs:10-25 | reading back the written range gives the written bytes |
| RawAddress.WriteOverwrites | src/address.rs:21-25 | a second write of the same length at the same address hides the first entirely |
| RawAddress.WriteSame | src/address.rs:21-25 | writing, at each address, the byte already there leaves memory equal to what it was |
| RawAddress.WriteWhatIsThere | src/address.rs:10-25 | writing back the bytes just read leaves memory equal to what it was |
| RawAddress.CopyMemory | src/address.rs:27-29 | for non-overlapping ranges, the target bytes become the source bytes; nothing outside the target changes |
| RawAddress.FillMemory | src/address.rs:31-33 | the `size` bytes at the address all become `byte`; nothing outside them changes |
| RawAddress.Read | src/address.rs:39-41 | a value of the width whose little-endian encoding is the bytes at the address |
| RawAddress.Write | src/address.rs:35-37 | the width's bytes at the address become the value's little-endian encoding; nothing else changes; reading it back gives the value |
| RawAddress.ReadPointer | src/address.rs:49 | the pointer-sized value at an address is below 2^64, and its 8-byte little-endian encoding is the bytes at the address |
| RawAddress.WritePtrVal | src/address.rs:43-52 | a null address gives `false` and leaves memory as it was; otherwise it gives `true`, and the value is stored at (the pointer stored at the address) + offset, with nothing else changed |
| RawAddress.ReadPtrVal | src/address.rs:54-62 | `None` exactly for a null address; otherwise the value whose encoding is at (the pointer stored at the address) + offset |
| RawAddress.PointerCellUnchanged | src/address.rs:49 | a write outside a pointer cell leaves the pointer stored there unchanged |
| RawAddress.ReadPtrValAfterWritePtrVal | src/address.rs:43-62 | reading through a pointer after writing through it gives the written value, when the write misses the pointer cell |
| RawAddress.Pointers | src/address.rs:69-77 | the pointer view has an entry exactly at the addresses where a whole pointer cell exists, and that entry is the address-sized value whose 8-byte little-endian encoding fills the cell |
| RawAddress.WriteMultilevelPtrVal | src/address.rs:64-82 | a null address or an empty chain gives `false` and leaves memory as it was; otherwise it gives `true` and stores the value at the chain's target, with nothing else changed; a one-offset chain is exactly `write_ptr_val` |
| RawAddress.ReadMultilevelPtrVal | src/address.rs:84-101 | `None` exactly for a null address or an empty chain; otherwise the value at the chain's target; a one-offset chain is exactly `read_ptr_val` |
| RawAddress.ChainSplitMapped | src/address.rs:69-79 | a chain `first + rest` can be followed exactly when `first` can, the cell it ends at holds a pointer, and `rest` can be followed from that pointer |
| RawAddress.ChainSplit | src/address.rs:69-79 | following `first + rest` is following `first`, dereferencing once, then following `rest`; so a chain of k offsets makes k - 1 dereferences and then adds the last offset |
| RawAddress.ViewFrame | src/address.rs:69-79 | two pointer views that agree outside a range give the same chain target, for a chain whose cells all avoid that range |
| RawAddress.ChainFrame | src/address.rs:64-101 | a change outside every pointer cell of a chain leaves the chain, and its target, as they were |
| RawAddress.ReadMultilevelAfterWrite | src/address.rs:64-101 | reading through a chain after writing through it gives the written value, when the write misses the address's own pointer cell and every intermediate cell |
| MemoryEdit.NewMemoryPatch | src/memory_edit.rs:21-33 | keeps the address and the replacement bytes, and captures exactly as many bytes as it replaces: those currently at the target |
| MemoryEdit.NewMemoryDataEdit | src/memory_edit.rs:47-59 | keeps the address, the width and the replacement value, and captures the value of that width currently at the target |
| MemoryEdit.Edit | src/memory_edit.rs:37-39 | the target range becomes the replacement payload (for a data edit, reading the target gives the replacement value); nothing outside the range changes |
| MemoryEdit.Revert | src/memory_edit.rs:41-43 | the target range becomes the captured payload (for a data edit, reading the target gives the captured value); nothing outside the range changes |
| MemoryEdit.EditIsWrite | src/memory_edit.rs:62-70 | both operations of either kind of edit are one write of the payload's bytes over the whole target |
| MemoryEdit.Step | src/memory_edit.rs:3-6 | a call of either operation keeps the set of addresses |
| MemoryEdit.Drive | src/memory_edit.rs:3-6 | any sequence of calls keeps the set of addresses |
| MemoryEdit.StepOverwrites | src/memory_edit.rs:36-44 | a call's result does not depend on the call before it |
| MemoryEdit.EditIdempotent | src/memory_edit.rs:37-39 | `edit` twice is `edit` once |
| MemoryEdit.RevertIdempotent | src/memory_edit.rs:41-43 | `revert` twice is `revert` once |
| MemoryEdit.LastCallDecides | src/memory_edit.rs:86-91 | after any non-empty sequence of calls, memory is what the last call alone makes of the starting memory |
| MemoryEdit.NewIsBuiltOver | src/memory_edit.rs:20-60 | a new patch and a new data edit both hold, as captured payload, exactly what is at the target when they are built |
| MemoryEdit.EditThenRevertRestores | src/memory_edit.rs:104-106 | from the memory an edit was built over, `edit` then `revert` gives back that whole memory |
| MemoryEdit.DriveFromConstruction | src/memory_edit.rs:76-144 | from construction, after any sequence of calls, nothing outside the target has changed; if the last call was `edit`, the target holds the replacement; with no call, or `revert` last, memory is exactly what it was at construction |
| HexCodec.HexDigit | src/util.rs:14-15 | the digit is a hex digit whose value is the nibble, in the requested case |
| HexCodec.FormatByte | src/util.rs:13-17 | exactly two hex digits, high nibble first, which spell the byte, in the requested case |
| HexCodec.BytesToString | src/util.rs:9-25 | no bytes give the empty string |
| HexCodec.JoinedLayout | src/util.rs:19-21 | joining puts the separator after every group but the last |
| HexCodec.BytesToStringLayout | src/util.rs:12-22 | the encoding is each byte's two digits followed by the separator, with nothing after the last byte |
| HexCodec.JoinedLength | src/util.rs:19-21 | joining k two-character groups gives 2k characters plus k - 1 separators |
| HexCodec.BytesToStringLength | src/util.rs:12-22 | the encoding of k > 0 bytes has 2k digits and k - 1 separators |
| HexCodec.ConcatSpells | src/util.rs:12-17 | groups that each spell one byte, joined, spell the byte sequence |
| HexCodec.ConcatHex | src/util.rs:12-17 | groups of hex digits, joined, are hex digits only |
| HexCodec.DigitsOf | src/util.rs:12-17 | the digit groups of the bytes, joined, are hex digits only and spell the bytes |
| HexCodec.EncodedDigits | src/util.rs:9-29 | with a whitespace (or empty) separator, removing the whitespace from an encoding leaves just the digit groups |
| HexCodec.ReadAllPairs | src/util.rs:38-51 | one byte per full pair of characters; each nibble written by a hex digit has that digit's value, whatever digit replaces a non-hex character |
| HexCodec.StringToBytes | src/util.rs:27-54 | whitespace is removed first; an empty or odd-length (in UTF-8 bytes) remainder gives no bytes; otherwise one byte per pair of characters, each nibble given by a hex digit in either case, non-hex characters standing for an unspecified digit |
| HexCodec.EncodingSpells | src/util.rs:9-33 | what the decoder sees of an encoding with a whitespace separator is ASCII, even in length, and spells the bytes |
| HexCodec.SameSpelling | src/util.rs:40-51 | pairs read off a string that spells the bytes give the bytes back |
| HexCodec.DecodeEncoded | src/util.rs:9-54 | round trip: decoding the encoding gives the bytes back, in either letter case, when the separator is empty or all whitespace |

## Left out

- Raw pointers and `unsafe`. Memory is a map from addresses to bytes. Validity of the touched
  bytes becomes the `Mapped` precondition. Alignment and the undefined behaviour of a null or
  dangling intermediate pointer in a chain (src/address.rs:77, 96) are not modelled; `ChainMapped` requires every
  intermediate cell to exist.
- Address overflow. `base + offset` on `usize` can wrap or panic. The model uses unbounded
  addresses, and `Mapped` keeps every accessed range below 2^64.
- Generic `T`. Typed access is restricted to unsigned little-endian integers of 1, 2, 4 and 8
  bytes. The source's tests that use signed types (`i32`) are not modelled.
- Pointer width. `usize` is fixed at 8 bytes, because its width depends on the platform.
- RawAddress.CopyMemory: requires non-overlapping ranges, because `copy_nonoverlapping` leaves an overlapping copy undefined.
- Scanning past the region's end. `find_address_from` reads up to `pattern_size - 1` bytes
  past the region, and `find_next_address` starts past the cursor. The model does not clamp these
  reads. Instead, `SearchMapped` requires every byte a search may read to exist.
- Panics in `PatternMatch::new`. Each panic is a `Failure` result: `InvalidPatternFormat` for the
  length check, `InvalidByte` for a lookup or a parse that fails inside the loop. The model does not
  say which of the loop's calls would panic first.
- PatternScan.Sanitize: its own contract states what the result lacks (whitespace, a trailing `?`)
  and its alphabet, not which characters it keeps. What the result
  holds is the composition of `TrimEnd`'s contract with whitespace removal, whose lemmas live in `Text`.
- PatternScan.Xor: computed on naturals, not on 8-bit values; only its zero test is used.
- Non-ASCII patterns. The scanner's length check uses the UTF-8 length while its lookups use
  characters. A sanitised pattern outside ASCII therefore always fails (`NonAsciiLastGroup`), and
  the model does not follow its loop character by character. The hex decoder keeps the UTF-8
  length check (`Utf8Length`).
- `rand::thread_rng`. The digit drawn for a non-hex character is a nondeterministic choice. What
  `StringToBytes` promises is what holds for every choice.
- HexCodec.BytesToString: its own contract states only the empty case. The layout, the length
  and the per-byte digits and case are stated by `BytesToStringLayout`, `BytesToStringLength`
  and `Groups`.
- Concrete test fixtures. Only the sanitisation example, the `"0a0?"` case and the one- and
  two-group cases are proved. The `offsetof!` struct layouts and the byte and value examples are
  instances of the general contracts and are not replayed. The haystack scans are not replayed
  either, and are not instances of the search contracts (see the next line).
- PatternScan.FindAddress / PatternScan.FindNextAddress: `SearchMapped` asks for every byte of every
  window to exist, although the byte comparison stops at the first mismatch. The source's own
  haystack scans (src/pattern_match.rs:124-132, 164-171) read nothing past the haystack, but they
  meet `SearchMapped` only if memory past the haystack is taken to be accessible.
- Heterogeneous trait-object collections of edits. Only the two-operation interface is modelled.
- `Address::new` is the datatype constructor.
