/** The hex codec (`bytes_to_string`, `string_to_bytes` in src/util.rs).

    Encoding writes each byte as two hex digits in the requested letter case
    and puts a separator between consecutive bytes. Decoding deletes all
    whitespace, refuses an empty or odd-length result with an empty vector,
    and reads the rest two characters at a time. A character that is not a
    hex digit is not refused: the source replaces it by a hex digit drawn at
    random. Here that draw is a nondeterministic choice, so what the decoder
    promises is what holds whatever digit is drawn.
 */
module HexCodec {
  import opened Mem
  import opened Text

  datatype Lettercase = Lowercase | Uppercase

  /** The digit for `n` in the given case. */
  function HexDigit(n: nat, lettercase: Lettercase): (c: char)
    requires n < 16
    ensures IsHexDigit(c) && HexValue(c) == n
    ensures lettercase.Lowercase? ==> !('A' <= c <= 'F')
    ensures lettercase.Uppercase? ==> !('a' <= c <= 'f')
  {
    (if lettercase.Lowercase? then "0123456789abcdef" else "0123456789ABCDEF")[n]
  }

  /** `{:02x}` / `{:02X}`: exactly two digits, high nibble first. */
  function FormatByte(b: byte, lettercase: Lettercase): (r: string)
    ensures |r| == 2
    ensures IsHexDigit(r[0]) && IsHexDigit(r[1])
    ensures 16 * HexValue(r[0]) + HexValue(r[1]) == b
    ensures lettercase.Lowercase? ==> forall i :: 0 <= i < 2 ==> !('A' <= r[i] <= 'F')
    ensures lettercase.Uppercase? ==> forall i :: 0 <= i < 2 ==> !('a' <= r[i] <= 'f')
  {
    [HexDigit(b / 16, lettercase), HexDigit(b % 16, lettercase)]
  }

  /** The digit groups of `bytes`, one per byte. */
  function Groups(bytes: seq<byte>, lettercase: Lettercase): (g: seq<string>)
    ensures |g| == |bytes|
    ensures forall k :: 0 <= k < |bytes| ==> g[k] == FormatByte(bytes[k], lettercase)
  {
    seq(|bytes|, k requires 0 <= k < |bytes| => FormatByte(bytes[k], lettercase))
  }

  /** The groups in order, the separator pushed after every group but the
      last. */
  function Joined(groups: seq<string>, separator: string): string
    decreases |groups|
  {
    if |groups| == 0 then ""
    else groups[0] + (if |groups| == 1 then "" else separator + Joined(groups[1..], separator))
  }

  /** `bytes_to_string`: for each byte its two digits, then the separator
      unless it is the last byte. */
  function BytesToString(bytes: seq<byte>, lettercase: Lettercase, separator: string): (r: string)
    ensures |bytes| == 0 ==> r == ""
  {
    Joined(Groups(bytes, lettercase), separator)
  }

  /** The padding after each of `n` groups: the separator, except after the
      last. */
  function Separators(n: nat, separator: string): (p: seq<string>)
    ensures |p| == n
  {
    seq(n, k => if k < n - 1 then separator else "")
  }

  lemma SeparatorsTail(n: nat, separator: string)
    requires n > 0
    ensures Separators(n, separator)[1..] == Separators(n - 1, separator)
  {
    assert forall k :: 0 <= k < n - 1 ==> Separators(n, separator)[1..][k] == Separators(n - 1, separator)[k];
  }

  /** Joining is each group followed by the separator, with nothing after
      the last group. */
  lemma {:induction false} JoinedLayout(groups: seq<string>, separator: string)
    ensures Joined(groups, separator) == Interleave(groups, Separators(|groups|, separator))
    decreases |groups|
  {
    var n := |groups|;
    if n > 0 {
      var pads := Separators(n, separator);
      SeparatorsTail(n, separator);
      var rest := Interleave(groups[1..], pads[1..]);
      assert Interleave(groups, pads) == groups[0] + pads[0] + rest;
      if n == 1 {
        assert rest == "" && pads[0] == "";
      } else {
        JoinedLayout(groups[1..], separator);
        assert pads[0] == separator;
      }
    }
  }

  /** The length of a join of two-character groups. */
  lemma {:induction false} JoinedLength(groups: seq<string>, separator: string)
    requires |groups| > 0
    requires forall k :: 0 <= k < |groups| ==> |groups[k]| == 2
    ensures |Joined(groups, separator)| == 2 * |groups| + (|groups| - 1) * |separator|
    decreases |groups|
  {
    if |groups| > 1 {
      JoinedLength(groups[1..], separator);
      assert (|groups| - 1) * |separator| == (|groups| - 2) * |separator| + |separator|;
    }
  }

  /** The encoding is each byte's two digits followed by the separator, with
      nothing after the last byte. */
  lemma BytesToStringLayout(bytes: seq<byte>, lettercase: Lettercase, separator: string)
    ensures BytesToString(bytes, lettercase, separator)
      == Interleave(Groups(bytes, lettercase), Separators(|bytes|, separator))
  {
    JoinedLayout(Groups(bytes, lettercase), separator);
  }

  /** The encoding's length: two digits per byte and one separator between
      each two consecutive bytes. */
  lemma BytesToStringLength(bytes: seq<byte>, lettercase: Lettercase, separator: string)
    requires |bytes| > 0
    ensures |BytesToString(bytes, lettercase, separator)| == 2 * |bytes| + (|bytes| - 1) * |separator|
  {
    JoinedLength(Groups(bytes, lettercase), separator);
  }

  /** `s` is the digit pairs of `bytes`: two hex digits per byte, the pair at
      `2k` spelling byte `k`, high nibble first. */
  predicate Spells(s: string, bytes: seq<byte>)
  {
    && |s| == 2 * |bytes|
    && forall k :: 0 <= k < |bytes| ==>
         && IsHexDigit(s[2 * k]) && IsHexDigit(s[2 * k + 1])
         && 16 * HexValue(s[2 * k]) + HexValue(s[2 * k + 1]) == bytes[k]
  }

  /** `bytes` was read off the leading pairs of `s`: the high nibble of byte
      `k` is the value of character `2k` and the low nibble that of character
      `2k + 1`, wherever that character is a hex digit. */
  predicate ReadsPairs(s: string, bytes: seq<byte>)
  {
    && 2 * |bytes| <= |s|
    && forall k :: 0 <= k < |bytes| ==>
         && (IsHexDigit(s[2 * k]) ==> bytes[k] / 16 == HexValue(s[2 * k]))
         && (IsHexDigit(s[2 * k + 1]) ==> bytes[k] % 16 == HexValue(s[2 * k + 1]))
  }

  /** Joined groups, each spelling one byte, spell the bytes. */
  lemma {:induction false} ConcatSpells(groups: seq<string>, bytes: seq<byte>)
    requires |groups| == |bytes|
    requires forall k :: 0 <= k < |groups| ==> Spells(groups[k], [bytes[k]])
    ensures Spells(Concat(groups), bytes)
    decreases |groups|
  {
    if |groups| > 0 {
      assert Spells(groups[0], [bytes[0]]);
      ConcatSpells(groups[1..], bytes[1..]);
      var rest := Concat(groups[1..]);
      var s := Concat(groups);
      assert s == groups[0] + rest;
      forall k | 1 <= k < |bytes|
        ensures IsHexDigit(s[2 * k]) && IsHexDigit(s[2 * k + 1])
        ensures 16 * HexValue(s[2 * k]) + HexValue(s[2 * k + 1]) == bytes[k]
      {
        assert s[2 * k] == rest[2 * (k - 1)] && s[2 * k + 1] == rest[2 * (k - 1) + 1];
        assert bytes[1..][k - 1] == bytes[k];
      }
    }
  }

  /** Joined groups of hex digits hold hex digits only. */
  lemma {:induction false} ConcatHex(groups: seq<string>)
    requires forall k :: 0 <= k < |groups| ==> forall i :: 0 <= i < |groups[k]| ==> IsHexDigit(groups[k][i])
    ensures forall i :: 0 <= i < |Concat(groups)| ==> IsHexDigit(Concat(groups)[i])
    decreases |groups|
  {
    if |groups| > 0 {
      ConcatHex(groups[1..]);
      var first := groups[0];
      var rest := Concat(groups[1..]);
      var s := Concat(groups);
      assert s == first + rest;
      forall i | 0 <= i < |s|
        ensures IsHexDigit(s[i])
      {
        if i < |first| {
          assert s[i] == first[i];
        } else {
          assert s[i] == rest[i - |first|];
        }
      }
    }
  }

  /** The digit groups of `bytes` joined are hex digits only, and spell the
      bytes. */
  lemma DigitsOf(bytes: seq<byte>, lettercase: Lettercase)
    ensures Spells(Concat(Groups(bytes, lettercase)), bytes)
    ensures var s := Concat(Groups(bytes, lettercase));
      forall i :: 0 <= i < |s| ==> IsHexDigit(s[i])
  {
    var groups := Groups(bytes, lettercase);
    forall k | 0 <= k < |groups|
      ensures Spells(groups[k], [bytes[k]])
      ensures forall i :: 0 <= i < |groups[k]| ==> IsHexDigit(groups[k][i])
    {
      var g := FormatByte(bytes[k], lettercase);
      assert groups[k] == g;
      assert forall i :: 0 <= i < |g| ==> g[i] == g[0] || g[i] == g[1];
    }
    ConcatSpells(groups, bytes);
    ConcatHex(groups);
  }

  /** With a whitespace separator, deleting the whitespace from an encoding
      leaves the digit groups joined together. */
  lemma EncodedDigits(bytes: seq<byte>, lettercase: Lettercase, separator: string)
    requires AllWhitespace(separator)
    ensures RemoveWhitespace(BytesToString(bytes, lettercase, separator)) == Concat(Groups(bytes, lettercase))
  {
    var groups := Groups(bytes, lettercase);
    var pads := Separators(|bytes|, separator);
    BytesToStringLayout(bytes, lettercase, separator);
    assert forall k :: 0 <= k < |bytes| ==> AllWhitespace(pads[k]);
    RemovePadding(groups, pads);
  }

  /** `string_to_bytes`. The length checks use the UTF-8 length of the
      whitespace-free string, as `String::len` does. Whatever digits are
      drawn for non-digits, the result has one byte per pair of characters,
      and each nibble spelled by a hex digit is that digit's value. */
  method StringToBytes(byteString: string) returns (bytes: seq<byte>)
    ensures var s := RemoveWhitespace(byteString);
      Utf8Length(s) == 0 || Utf8Length(s) % 2 != 0 ==> bytes == []
    ensures var s := RemoveWhitespace(byteString);
      Utf8Length(s) > 0 && Utf8Length(s) % 2 == 0 ==> |s| < 2 * |bytes| + 2
    ensures ReadsPairs(RemoveWhitespace(byteString), bytes)
  {
    var sanitized := RemoveWhitespace(byteString);
    if Utf8Length(sanitized) == 0 || Utf8Length(sanitized) % 2 != 0 {
      return [];
    }
    bytes := ReadAllPairs(sanitized);
  }

  /** The decoding loop of `string_to_bytes`: characters are collected two at
      a time, a character that is not a hex digit being replaced by an
      arbitrary one, and each full pair becomes a byte. A character left over
      at the end, which only characters of several UTF-8 bytes make possible,
      is dropped. */
  method ReadAllPairs(s: string) returns (bytes: seq<byte>)
    ensures |s| < 2 * |bytes| + 2
    ensures ReadsPairs(s, bytes)
  {
    bytes := [];
    var pending: string := "";
    for i := 0 to |s|
      invariant |pending| == i % 2
      invariant |bytes| == i / 2
      invariant forall j :: 0 <= j < |pending| ==> IsHexDigit(pending[j])
      invariant |pending| == 1 && IsHexDigit(s[i - 1]) ==> pending[0] == s[i - 1]
      invariant ReadsPairs(s, bytes)
    {
      var c := s[i];
      if !IsHexDigit(c) {
        var d: nat :| d < 16;
        pending := pending + [HexDigit(d, Uppercase)];
      } else {
        pending := pending + [c];
      }
      if |pending| == 2 {
        var high, low := HexValue(pending[0]), HexValue(pending[1]);
        var b: byte := 16 * high + low;
        Nibbles(high, low);
        bytes := bytes + [b];
        pending := "";
      }
    }
  }

  /** A byte put together from two nibbles gives them back. */
  lemma Nibbles(high: nat, low: nat)
    requires high < 16 && low < 16
    ensures (16 * high + low) / 16 == high && (16 * high + low) % 16 == low
  {
  }

  /** What the decoder sees of an encoding with a whitespace separator: ASCII
      hex digits, an even number of them, that spell the bytes. */
  lemma EncodingSpells(bytes: seq<byte>, lettercase: Lettercase, separator: string)
    requires AllWhitespace(separator)
    ensures var s := RemoveWhitespace(BytesToString(bytes, lettercase, separator));
      && Spells(s, bytes)
      && Utf8Length(s) == |s|
      && Utf8Length(s) % 2 == 0
  {
    EncodedDigits(bytes, lettercase, separator);
    DigitsOf(bytes, lettercase);
    var s := RemoveWhitespace(BytesToString(bytes, lettercase, separator));
    assert Utf8Length(s) == |s| by {
      assert forall i :: 0 <= i < |s| ==> IsHexDigit(s[i]);
    }
    DoubleIsEven(|bytes|);
  }

  lemma DoubleIsEven(n: nat)
    ensures (2 * n) % 2 == 0
  {
  }

  /** Pairs read off a string that spells `bytes`, as many as it has, give
      `bytes` back. */
  lemma SameSpelling(s: string, bytes: seq<byte>, decoded: seq<byte>)
    requires Spells(s, bytes)
    requires ReadsPairs(s, decoded)
    requires |s| < 2 * |decoded| + 2
    ensures decoded == bytes
  {
    forall k | 0 <= k < |bytes|
      ensures decoded[k] == bytes[k]
    {
      var high, low := HexValue(s[2 * k]), HexValue(s[2 * k + 1]);
      Nibbles(high, low);
      assert decoded[k] == 16 * (decoded[k] / 16) + decoded[k] % 16;
    }
  }

  /** Round trip: decoding an encoding whose separator is whitespace (or
      empty) gives back the bytes, in either letter case. */
  method DecodeEncoded(bytes: seq<byte>, lettercase: Lettercase, separator: string) returns (decoded: seq<byte>)
    requires AllWhitespace(separator)
    ensures decoded == bytes
  {
    var encoded := BytesToString(bytes, lettercase, separator);
    EncodingSpells(bytes, lettercase, separator);
    decoded := StringToBytes(encoded);
    if |bytes| == 0 {
      assert decoded == [];
    } else {
      SameSpelling(RemoveWhitespace(encoded), bytes, decoded);
    }
  }
}
