/** Character classes and whitespace removal shared by the pattern scanner and
    the hex codec. Strings are sequences of Unicode scalar values, as Rust's
    `char`s are. */
module Text {

  /** Rust's `char::is_whitespace`: the Unicode `White_Space` property. */
  predicate IsWhitespace(c: char)
  {
    var n := c as int;
    || (0x09 <= n <= 0x0D) || n == 0x20 || n == 0x85 || n == 0xA0 || n == 0x1680
    || (0x2000 <= n <= 0x200A) || n == 0x2028 || n == 0x2029 || n == 0x202F
    || n == 0x205F || n == 0x3000
  }

  /** `char::is_digit(16)`: an ASCII hex digit of either case. */
  predicate IsHexDigit(c: char)
  {
    ('0' <= c <= '9') || ('a' <= c <= 'f') || ('A' <= c <= 'F')
  }

  /** The value of a hex digit. */
  function HexValue(c: char): (v: nat)
    requires IsHexDigit(c)
    ensures v < 16
  {
    if '0' <= c <= '9' then c as int - '0' as int
    else if 'a' <= c <= 'f' then c as int - 'a' as int + 10
    else c as int - 'A' as int + 10
  }

  /** `s.chars().filter(|c| !c.is_whitespace())`: the characters of `s` that
      are not whitespace, in their order. */
  function RemoveWhitespace(s: string): (r: string)
    ensures |r| <= |s|
    ensures forall i :: 0 <= i < |r| ==> !IsWhitespace(r[i])
    decreases |s|
  {
    if |s| == 0 then ""
    else
      var rest := RemoveWhitespace(s[1..]);
      if IsWhitespace(s[0]) then rest else [s[0]] + rest
  }

  /** Every character kept comes from the input. */
  lemma {:induction false} RemoveWhitespaceKeeps(s: string)
    ensures forall i :: 0 <= i < |RemoveWhitespace(s)| ==> RemoveWhitespace(s)[i] in s
    decreases |s|
  {
    if |s| > 0 {
      RemoveWhitespaceKeeps(s[1..]);
      assert forall c :: c in s[1..] ==> c in s;
    }
  }

  /** A string without whitespace is left as it is. */
  lemma {:induction false} RemoveWhitespaceNone(s: string)
    requires NoWhitespace(s)
    ensures RemoveWhitespace(s) == s
    decreases |s|
  {
    if |s| > 0 {
      RemoveWhitespaceNone(s[1..]);
    }
  }

  /** Whitespace removal works piece by piece. */
  lemma {:induction false} RemoveWhitespaceAppend(a: string, b: string)
    ensures RemoveWhitespace(a + b) == RemoveWhitespace(a) + RemoveWhitespace(b)
    decreases |a|
  {
    if |a| > 0 {
      assert (a + b)[0] == a[0];
      assert (a + b)[1..] == a[1..] + b;
      RemoveWhitespaceAppend(a[1..], b);
    } else {
      assert a + b == b;
    }
  }

  /** A string of whitespace disappears entirely. */
  lemma {:induction false} RemoveWhitespaceAll(s: string)
    requires AllWhitespace(s)
    ensures RemoveWhitespace(s) == ""
    decreases |s|
  {
    if |s| > 0 {
      RemoveWhitespaceAll(s[1..]);
    }
  }

  /** Whitespace removal keeps a last character that is not whitespace in
      last place. */
  lemma RemoveWhitespaceLast(t: string)
    requires |t| > 0 && !IsWhitespace(t[|t| - 1])
    ensures |RemoveWhitespace(t)| > 0
    ensures RemoveWhitespace(t)[|RemoveWhitespace(t)| - 1] == t[|t| - 1]
  {
    var init, c := t[..|t| - 1], t[|t| - 1];
    assert t == init + [c];
    RemoveWhitespaceAppend(init, [c]);
    assert RemoveWhitespace([c]) == [c] by {
      assert [c][1..] == "";
    }
  }

  /** Each group followed by its padding. */
  function Interleave(groups: seq<string>, pads: seq<string>): string
    requires |pads| == |groups|
    decreases |groups|
  {
    if |groups| == 0 then "" else groups[0] + pads[0] + Interleave(groups[1..], pads[1..])
  }

  /** The groups one after another. */
  function Concat(groups: seq<string>): string
    decreases |groups|
  {
    if |groups| == 0 then "" else groups[0] + Concat(groups[1..])
  }

  predicate NoWhitespace(s: string)
  {
    forall i :: 0 <= i < |s| ==> !IsWhitespace(s[i])
  }

  predicate AllWhitespace(s: string)
  {
    forall i :: 0 <= i < |s| ==> IsWhitespace(s[i])
  }

  /** Deleting the whitespace from groups separated by whitespace padding
      leaves the groups joined together. */
  lemma {:induction false} RemovePadding(groups: seq<string>, pads: seq<string>)
    requires |pads| == |groups|
    requires forall k :: 0 <= k < |groups| ==> NoWhitespace(groups[k]) && AllWhitespace(pads[k])
    ensures RemoveWhitespace(Interleave(groups, pads)) == Concat(groups)
    decreases |groups|
  {
    if |groups| > 0 {
      var rest := Interleave(groups[1..], pads[1..]);
      RemovePadding(groups[1..], pads[1..]);
      assert groups[0] + pads[0] + rest == groups[0] + (pads[0] + rest);
      RemoveWhitespaceAppend(groups[0], pads[0] + rest);
      RemoveWhitespaceAppend(pads[0], rest);
      RemoveWhitespaceNone(groups[0]);
      RemoveWhitespaceAll(pads[0]);
    }
  }

  /** The number of bytes `c` takes in UTF-8. */
  function Utf8Width(c: char): nat
  {
    var n := c as int;
    if n < 0x80 then 1 else if n < 0x800 then 2 else if n < 0x1_0000 then 3 else 4
  }

  predicate IsAscii(s: string)
  {
    forall i :: 0 <= i < |s| ==> s[i] as int < 0x80
  }

  /** `String::len`: the length of `s` in UTF-8 bytes. */
  function Utf8Length(s: string): (n: nat)
    ensures n >= |s|
    ensures IsAscii(s) ==> n == |s|
    decreases |s|
  {
    if |s| == 0 then 0 else Utf8Width(s[0]) + Utf8Length(s[1..])
  }

  /** A string with a character outside ASCII is longer in UTF-8 bytes than
      in characters. */
  lemma {:induction false} NonAsciiLonger(s: string)
    requires !IsAscii(s)
    ensures Utf8Length(s) > |s|
    decreases |s|
  {
    if s[0] as int < 0x80 {
      var i :| 0 <= i < |s| && s[i] as int >= 0x80;
      assert s[1..][i - 1] == s[i];
      NonAsciiLonger(s[1..]);
    }
  }
}
