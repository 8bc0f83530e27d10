/** The wildcard byte-pattern scanner (`PatternMatch` in src/pattern_match.rs).

    A pattern such as `"7b ?? 57 07"` is sanitised, compiled into one expected
    byte and one mask entry per two-character group, and then searched for,
    one start position at a time, in a region of memory. The scanner keeps a
    cursor, the last position it probed, so that a later search can resume
    just after it.

    The source never checks that a candidate window fits inside the region:
    the last probes read up to `pattern_size - 1` bytes past its end, and a
    search resumed at the cursor probes a full region's worth of positions
    from there. This model keeps that behaviour and makes the caller's
    obligation explicit: every byte a search may read must be `Mapped`.
 */
module PatternScan {
  import opened Mem
  import opened Text

  /** The wildcard marker. */
  const WILDCARD: char := '?'

  /** `PatternMatch::new` panics on a malformed pattern; here it fails. */
  datatype Error =
      /** The sanitised pattern is empty or odd in length. */
    | InvalidPatternFormat
      /** Compiling a group failed: a character lookup ran past the end of
          the pattern, or a group without a wildcard does not parse as a
          byte. */
    | InvalidByte

  datatype Result<T> = Success(value: T) | Failure(error: Error)

  datatype PatternMatch = PatternMatch(
    pattern: string,
    patternSize: nat,
    memoryStart: nat,
    memorySize: nat,
    currentAddress: nat,
    byteArray: seq<byte>,
    mask: seq<byte>)
  {
    /** What construction establishes: at least one byte position, both
        arrays of `patternSize` entries, a mask of 0 (fixed) or 1 (wildcard),
        and 0 as the expected value at every wildcard. */
    predicate Valid()
    {
      && patternSize >= 1
      && |byteArray| == patternSize
      && |mask| == patternSize
      && forall j :: 0 <= j < patternSize ==> mask[j] == 0 || (mask[j] == 1 && byteArray[j] == 0)
    }
  }

  /** Hex digits, the wildcard marker and whitespace. */
  predicate PatternAlphabet(s: string)
  {
    forall i :: 0 <= i < |s| ==> IsHexDigit(s[i]) || s[i] == WILDCARD || IsWhitespace(s[i])
  }

  predicate Trimmable(c: char)
  {
    c == WILDCARD || IsWhitespace(c)
  }

  /** `trim_end_matches`: `s` without its trailing run of wildcards and
      whitespace. */
  function TrimEnd(s: string): (r: string)
    ensures r <= s
    ensures |r| == 0 || !Trimmable(r[|r| - 1])
    ensures forall i :: |r| <= i < |s| ==> Trimmable(s[i])
    decreases |s|
  {
    if |s| > 0 && Trimmable(s[|s| - 1]) then TrimEnd(s[..|s| - 1]) else s
  }

  /** The pattern as the scanner keeps it: trailing wildcards and whitespace
      trimmed, then every remaining whitespace character deleted. No
      whitespace remains and the last character is not a wildcard; from a
      pattern of hex digits, wildcards and whitespace only hex digits and
      wildcards remain. */
  function Sanitize(s: string): (r: string)
    ensures NoWhitespace(r)
    ensures |r| > 0 ==> r[|r| - 1] != WILDCARD
    ensures PatternAlphabet(s) ==> forall i :: 0 <= i < |r| ==> IsHexDigit(r[i]) || r[i] == WILDCARD
  {
    var t := TrimEnd(s);
    assert forall c :: c in t ==> c in s;
    RemoveWhitespaceKeeps(t);
    var r := RemoveWhitespace(t);
    assert |r| > 0 ==> r[|r| - 1] != WILDCARD by {
      if |t| > 0 {
        RemoveWhitespaceLast(t);
      }
    }
    r
  }

  /** The group at `k` is a wildcard byte when either of its characters is
      the marker. */
  predicate GroupIsWildcard(s: string, k: nat)
    requires 2 * k + 1 < |s|
  {
    s[2 * k] == WILDCARD || s[2 * k + 1] == WILDCARD
  }

  /** `u8::from_str_radix(group, 16)` succeeds on the group at `k`: two hex
      digits, or a `+` sign followed by one. */
  predicate GroupParses(s: string, k: nat)
    requires 2 * k + 1 < |s|
  {
    IsHexDigit(s[2 * k + 1]) && (IsHexDigit(s[2 * k]) || s[2 * k] == '+')
  }

  /** The byte the group at `k` spells. */
  function GroupValue(s: string, k: nat): byte
    requires 2 * k + 1 < |s|
    requires GroupParses(s, k)
  {
    if s[2 * k] == '+' then HexValue(s[2 * k + 1])
    else 16 * HexValue(s[2 * k]) + HexValue(s[2 * k + 1])
  }

  /** Every group is a wildcard group, which is never parsed, or parses. */
  predicate WellFormedGroups(s: string)
  {
    forall k :: 0 <= k < |s| && 2 * k + 1 < |s| ==> GroupIsWildcard(s, k) || GroupParses(s, k)
  }

  /** The loop of `PatternMatch::new` over two-character groups, pushing
      one expected byte and one mask entry per group. */
  function Compile(s: string): (r: (seq<byte>, seq<byte>))
    requires |s| % 2 == 0
    requires WellFormedGroups(s)
    ensures |r.0| == |s| / 2 && |r.1| == |s| / 2
    ensures forall k :: 0 <= k < |s| / 2 ==> r.1[k] == (if GroupIsWildcard(s, k) then 1 else 0)
    ensures forall k :: 0 <= k < |s| / 2 && GroupIsWildcard(s, k) ==> r.0[k] == 0
    ensures forall k :: 0 <= k < |s| / 2 && !GroupIsWildcard(s, k) ==> r.0[k] == GroupValue(s, k)
    decreases |s|
  {
    if |s| == 0 then ([], [])
    else
      var init := s[..|s| - 2];
      var last := |s| / 2 - 1;
      assert forall k :: 0 <= k < last ==> init[2 * k] == s[2 * k] && init[2 * k + 1] == s[2 * k + 1];
      assert WellFormedGroups(init) by {
        forall k | 0 <= k < |init| && 2 * k + 1 < |init|
          ensures GroupIsWildcard(init, k) || GroupParses(init, k)
        {
          assert GroupIsWildcard(s, k) || GroupParses(s, k);
          assert init[2 * k] == s[2 * k] && init[2 * k + 1] == s[2 * k + 1];
        }
      }
      var rest := Compile(init);
      var b: byte := if GroupIsWildcard(s, last) then 0 else GroupValue(s, last);
      var m: byte := if GroupIsWildcard(s, last) then 1 else 0;
      (rest.0 + [b], rest.1 + [m])
  }

  /** `PatternMatch::new`: sanitise, refuse a result that is empty or odd
      in UTF-8 length, compile. The cursor starts at the region start.

      Compiling looks characters up by the byte index of the group, and
      parses groups by byte slices. A sanitised pattern with a character
      outside ASCII therefore always fails: it has fewer characters than
      bytes, so the last group's lookups run past its last character, which
      is not a wildcard (`NonAsciiLastGroup`). */
  function New(pattern: string, memoryStart: nat, memorySize: nat): (r: Result<PatternMatch>)
    ensures var s := Sanitize(pattern);
      r == Failure(InvalidPatternFormat) <==> Utf8Length(s) == 0 || Utf8Length(s) % 2 == 1
    ensures var s := Sanitize(pattern);
      r.Success? <==> |s| > 0 && |s| % 2 == 0 && IsAscii(s) && WellFormedGroups(s)
    ensures r.Success? ==>
      var pm := r.value;
      && pm.Valid()
      && pm.pattern == Sanitize(pattern)
      && pm.patternSize == |pm.pattern| / 2
      && pm.memoryStart == memoryStart && pm.memorySize == memorySize
      && pm.currentAddress == memoryStart
      && forall k :: 0 <= k < pm.patternSize ==>
           if GroupIsWildcard(pm.pattern, k) then pm.mask[k] == 1 && pm.byteArray[k] == 0
           else pm.mask[k] == 0 && pm.byteArray[k] == GroupValue(pm.pattern, k)
  {
    var s := Sanitize(pattern);
    if Utf8Length(s) == 0 || Utf8Length(s) % 2 == 1 then Failure(InvalidPatternFormat)
    else if !IsAscii(s) || !WellFormedGroups(s) then Failure(InvalidByte)
    else
      var compiled := Compile(s);
      Success(PatternMatch(s, |s| / 2, memoryStart, memorySize, memoryStart, compiled.0, compiled.1))
  }

  /** Why a sanitised pattern outside ASCII fails when its length check
      passes: at the last group, whose byte index is `n`, either the
      character at `n` does not exist, or it is the last character, is not a
      wildcard, and the character after it does not exist. */
  lemma NonAsciiLastGroup(pattern: string)
    requires var s := Sanitize(pattern);
      !IsAscii(s) && Utf8Length(s) % 2 == 0
    ensures var s := Sanitize(pattern);
      var n := Utf8Length(s) - 2;
      && n >= 0
      && (|s| <= n || (n + 1 == |s| && s[n] != WILDCARD))
  {
    NonAsciiLonger(Sanitize(pattern));
  }

  /** Bitwise exclusive or, the source's byte comparison `x ^ y == 0`. */
  function Xor(x: nat, y: nat): (r: nat)
    ensures r == 0 <==> x == y
    decreases x + y
  {
    if x == 0 && y == 0 then 0
    else
      assert x == 2 * (x / 2) + x % 2 && y == 2 * (y / 2) + y % 2;
      (if x % 2 == y % 2 then 0 else 1) + 2 * Xor(x / 2, y / 2)
  }

  /** The pattern matches the bytes at `p`: every position is a wildcard or
      holds its expected byte. */
  predicate MatchesAt(pm: PatternMatch, mem: Memory, p: nat)
    requires pm.Valid()
  {
    forall j :: 0 <= j < pm.patternSize ==>
      pm.mask[j] == 1 || (p + j in mem && mem[p + j] == pm.byteArray[j])
  }

  /** `try_match_at_current_address`: compare the window at the cursor,
      stopping at the first fixed position that differs. */
  method TryMatchAtCurrentAddress(pm: PatternMatch, mem: Memory) returns (matched: bool)
    requires pm.Valid()
    requires Mapped(mem, pm.currentAddress, pm.patternSize)
    ensures matched <==> MatchesAt(pm, mem, pm.currentAddress)
  {
    var j := 0;
    while j < pm.patternSize
      && (pm.mask[j] == 1 || Xor(mem[pm.currentAddress + j], pm.byteArray[j]) == 0)
      invariant 0 <= j <= pm.patternSize
      invariant forall i :: 0 <= i < j ==>
        pm.mask[i] == 1 || (pm.currentAddress + i in mem && mem[pm.currentAddress + i] == pm.byteArray[i])
    {
      j := j + 1;
    }
    matched := j == pm.patternSize;
  }

  /** The bytes a search starting at `from` may read: a window of
      `patternSize` bytes at each of `memorySize` start positions. */
  predicate SearchMapped(pm: PatternMatch, mem: Memory, from: nat)
    requires pm.Valid()
  {
    pm.memorySize > 0 ==> Mapped(mem, from, pm.memorySize + pm.patternSize - 1)
  }

  /** `find_address_from`: probe `memorySize` start positions from `from`
      onwards, moving the cursor to each one, and stop at the first match.
      The result is the matching address, or null when there is none; the
      cursor is left at the last position probed. Nothing but the cursor
      changes. */
  method FindAddressFrom(pm: PatternMatch, mem: Memory, from: nat) returns (pm': PatternMatch, found: nat)
    requires pm.Valid()
    requires SearchMapped(pm, mem, from)
    ensures pm' == pm.(currentAddress := pm'.currentAddress)
    ensures found != NULL ==>
      && from <= found < from + pm.memorySize
      && MatchesAt(pm, mem, found)
      && (forall q :: from <= q < found ==> !MatchesAt(pm, mem, q))
      && pm'.currentAddress == found
    ensures found == NULL ==>
      && (forall q :: from <= q < from + pm.memorySize ==> !MatchesAt(pm, mem, q))
      && pm'.currentAddress == (if pm.memorySize == 0 then pm.currentAddress else from + pm.memorySize - 1)
  {
    pm' := pm;
    for offset := 0 to pm.memorySize
      invariant pm' == pm.(currentAddress := pm'.currentAddress)
      invariant offset == 0 ==> pm'.currentAddress == pm.currentAddress
      invariant offset > 0 ==> pm'.currentAddress == from + offset - 1
      invariant forall q :: from <= q < from + offset ==> !MatchesAt(pm, mem, q)
    {
      pm' := pm'.(currentAddress := from + offset);
      MappedWithin(mem, from, pm.memorySize + pm.patternSize - 1, from + offset, pm.patternSize);
      var matched := TryMatchAtCurrentAddress(pm', mem);
      if matched {
        found := pm'.currentAddress;
        return;
      }
    }
    found := NULL;
  }

  /** `find_address`: search from the region start. */
  method FindAddress(pm: PatternMatch, mem: Memory) returns (pm': PatternMatch, found: nat)
    requires pm.Valid()
    requires SearchMapped(pm, mem, pm.memoryStart)
    ensures pm' == pm.(currentAddress := pm'.currentAddress)
    ensures found != NULL ==>
      && pm.memoryStart <= found < pm.memoryStart + pm.memorySize
      && MatchesAt(pm, mem, found)
      && (forall q :: pm.memoryStart <= q < found ==> !MatchesAt(pm, mem, q))
      && pm'.currentAddress == found
    ensures found == NULL ==>
      && (forall q :: pm.memoryStart <= q < pm.memoryStart + pm.memorySize ==> !MatchesAt(pm, mem, q))
      && pm'.currentAddress == (if pm.memorySize == 0 then pm.currentAddress else pm.memoryStart + pm.memorySize - 1)
  {
    pm', found := FindAddressFrom(pm, mem, pm.memoryStart);
  }

  /** `find_next_address`: search from one past the cursor, so a match is
      always strictly after the previous position. */
  method FindNextAddress(pm: PatternMatch, mem: Memory) returns (pm': PatternMatch, found: nat)
    requires pm.Valid()
    requires SearchMapped(pm, mem, pm.currentAddress + 1)
    ensures pm' == pm.(currentAddress := pm'.currentAddress)
    ensures found != NULL ==>
      && pm.currentAddress < found <= pm.currentAddress + pm.memorySize
      && MatchesAt(pm, mem, found)
      && (forall q :: pm.currentAddress < q < found ==> !MatchesAt(pm, mem, q))
      && pm'.currentAddress == found
    ensures found == NULL ==>
      && (forall q :: pm.currentAddress < q <= pm.currentAddress + pm.memorySize ==> !MatchesAt(pm, mem, q))
      && pm'.currentAddress == pm.currentAddress + pm.memorySize
  {
    pm', found := FindAddressFrom(pm, mem, pm.currentAddress + 1);
  }

  /** Trimming a non-empty string whose last character stays, followed by
      wildcards and whitespace, leaves that string. */
  lemma {:induction false} TrimEndSuffix(t: string, u: string)
    requires |t| > 0 && !Trimmable(t[|t| - 1])
    requires forall i :: 0 <= i < |u| ==> Trimmable(u[i])
    ensures TrimEnd(t + u) == t
    decreases |u|
  {
    if |u| == 0 {
      assert t + u == t;
    } else {
      var u' := u[..|u| - 1];
      assert (t + u)[..|t + u| - 1] == t + u';
      TrimEndSuffix(t, u');
    }
  }

  /** The sanitisation example: trailing wildcards and whitespace go, then
      the inner whitespace, leaving six byte positions. */
  lemma SanitizeExample()
    ensures Sanitize("0a 0b ?? ??   ?? 2e ??   ?? ") == "0a0b??????2e"
    ensures var r := New("0a 0b ?? ??   ?? 2e ??   ?? ", NULL, 0);
      r.Success? && r.value.pattern == "0a0b??????2e" && r.value.patternSize == 6
  {
    TrimExample();
    RemoveWhitespaceExample();
    ExampleCompiles();
    NewOfSanitized("0a 0b ?? ??   ?? 2e ??   ?? ", "0a0b??????2e");
  }

  /** `New` on a pattern whose sanitised form is known. */
  lemma NewOfSanitized(pattern: string, s: string)
    requires Sanitize(pattern) == s
    requires |s| > 0 && |s| % 2 == 0 && IsAscii(s) && WellFormedGroups(s)
    ensures var r := New(pattern, NULL, 0);
      && r.Success? && r.value.pattern == s && r.value.patternSize == |s| / 2
      && forall k :: 0 <= k < |s| / 2 ==>
           if GroupIsWildcard(s, k) then r.value.mask[k] == 1 && r.value.byteArray[k] == 0
           else r.value.mask[k] == 0 && r.value.byteArray[k] == GroupValue(s, k)
  {
  }

  lemma ExampleCompiles()
    ensures var s := "0a0b??????2e";
      |s| == 12 && |s| % 2 == 0 && IsAscii(s) && WellFormedGroups(s)
  {
    var s := "0a0b??????2e";
    assert forall k :: 0 <= k < 6 ==> GroupIsWildcard(s, k) || GroupParses(s, k);
  }

  lemma TrimExample()
    ensures TrimEnd("0a 0b ?? ??   ?? 2e ??   ?? ") == "0a 0b ?? ??   ?? 2e"
  {
    var t := "0a 0b ?? ??   ?? 2e";
    assert "0a 0b ?? ??   ?? 2e ??   ?? " == t + " ??   ?? ";
    TrimEndSuffix(t, " ??   ?? ");
  }

  lemma RemoveWhitespaceExample()
    ensures RemoveWhitespace("0a 0b ?? ??   ?? 2e") == "0a0b??????2e"
  {
    RemovePadding(ExampleGroups(), ExamplePads());
    ExampleInterleave();
    ExampleConcat();
  }

  function ExampleGroups(): seq<string> { ["0a", "0b", "??", "??", "??", "2e"] }

  function ExamplePads(): seq<string> { [" ", " ", " ", "   ", " ", ""] }

  lemma ExampleInterleave()
    ensures Interleave(ExampleGroups(), ExamplePads()) == "0a 0b ?? ??   ?? 2e"
  {
  }

  lemma ExampleConcat()
    ensures Concat(ExampleGroups()) == "0a0b??????2e"
  {
  }

  /** Trimming comes before the length check: a trailing half-wildcard
      group is trimmed away and leaves an odd number of characters. */
  lemma TrimBeforeValidate()
    ensures New("0a0?", NULL, 0) == Failure(InvalidPatternFormat)
  {
    assert Sanitize("0a0?") == "0a0";
  }

  /** A group with a wildcard is never parsed, whatever its other
      character: `?c1b` compiles to a wildcard and the byte 0x1b for any `c`
      that sanitising keeps and that is ASCII. */
  lemma WildcardGroupNotParsed(c: char)
    requires !IsWhitespace(c) && c as int < 0x80
    ensures var r := New(['?', c, '1', 'b'], NULL, 0);
      r.Success? && r.value.mask == [1, 0] && r.value.byteArray == [0, 0x1b]
  {
    var s := ['?', c, '1', 'b'];
    KeptAsIs(s);
    assert GroupIsWildcard(s, 0) && !GroupIsWildcard(s, 1) && GroupParses(s, 1);
    NewOfSanitized(s, s);
  }

  /** `from_str_radix` accepts a leading `+`, so `+a` is the byte 10. */
  lemma SignedGroup()
    ensures var r := New("+a", NULL, 0);
      r.Success? && r.value.byteArray == [10]
  {
    KeptAsIs("+a");
  }

  /** A group without a wildcard that is not a byte fails. */
  lemma UnparsedGroupFails()
    ensures New("0g", NULL, 0) == Failure(InvalidByte)
  {
    KeptAsIs("0g");
  }

  /** A pattern without whitespace whose last character is kept is its own
      sanitised form. */
  lemma KeptAsIs(s: string)
    requires |s| > 0 && !Trimmable(s[|s| - 1])
    requires NoWhitespace(s)
    ensures Sanitize(s) == s
  {
    assert TrimEnd(s) == s;
    RemoveWhitespaceNone(s);
  }
}
