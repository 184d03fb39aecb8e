/** The conversion `usb_string` applies to a string descriptor: the
    kernel's `utf16s_to_utf8s` and `utf32_to_utf8`, over the characters
    the descriptor's UTF-16 units decode to. */
module Nls {
  import opened UsbTypes

  /** A value in the surrogate range: what an unpaired UTF-16 surrogate
      decodes to. `utf32_to_utf8` refuses it. */
  predicate IsSurrogate(c: CodePoint) {
    0xD800 <= c <= 0xDFFF
  }

  /** The UTF-8 form `utf32_to_utf8` writes for a character, given room
      for it: one byte up to 0x7F, then two, three and four. */
  function Utf8(c: CodePoint): (r: seq<Byte>)
    requires !IsSurrogate(c)
    ensures 1 <= |r| <= 4
    ensures |r| == 1 <==> c <= 0x7F
    ensures c != 0 ==> NoNul(r)
  {
    if c <= 0x7F then [c]
    else if c <= 0x7FF then [0xC0 + c / 0x40, 0x80 + c % 0x40]
    else if c <= 0xFFFF then [0xE0 + c / 0x1000, 0x80 + c / 0x40 % 0x40, 0x80 + c % 0x40]
    else [0xF0 + c / 0x40000, 0x80 + c / 0x1000 % 0x40, 0x80 + c / 0x40 % 0x40, 0x80 + c % 0x40]
  }

  /** No character of `cs` is the NUL character. */
  predicate NoNulChar(cs: seq<CodePoint>) {
    forall i :: 0 <= i < |cs| ==> cs[i] != 0
  }

  /** The whole text `cs` converts to when room never runs out: the
      conversion stops at a NUL character and drops unpaired surrogates. */
  function Text(cs: seq<CodePoint>): (r: seq<Byte>)
    ensures NoNul(r)
  {
    if cs == [] || cs[0] == 0 then []
    else if IsSurrogate(cs[0]) then Text(cs[1..])
    else Utf8(cs[0]) + Text(cs[1..])
  }

  /** The bytes `utf16s_to_utf8s(cs, ..., s, maxout)` writes into `s`. A
      character whose UTF-8 form no longer fits the room left is skipped,
      and conversion goes on with the next one. */
  function Utf16sToUtf8s(cs: seq<CodePoint>, maxout: nat): (r: seq<Byte>)
    ensures |r| <= maxout && NoNul(r)
  {
    if cs == [] || maxout == 0 || cs[0] == 0 then []
    else if IsSurrogate(cs[0]) then Utf16sToUtf8s(cs[1..], maxout)
    else
      var e := Utf8(cs[0]);
      if |e| <= maxout then e + Utf16sToUtf8s(cs[1..], maxout - |e|)
      else Utf16sToUtf8s(cs[1..], maxout)
  }

  /** The conversion writes the whole text exactly when it fits. */
  lemma {:induction false} Utf16sToUtf8sWhole(cs: seq<CodePoint>, maxout: nat)
    ensures Utf16sToUtf8s(cs, maxout) == Text(cs) <==> |Text(cs)| <= maxout
  {
    if cs != [] && maxout > 0 && cs[0] != 0 {
      if IsSurrogate(cs[0]) {
        Utf16sToUtf8sWhole(cs[1..], maxout);
      } else {
        var e := Utf8(cs[0]);
        if |e| <= maxout {
          Utf16sToUtf8sWhole(cs[1..], maxout - |e|);
          var rest := Utf16sToUtf8s(cs[1..], maxout - |e|);
          assert (e + rest)[|e|..] == rest && (e + Text(cs[1..]))[|e|..] == Text(cs[1..]);
        }
      }
    }
  }

  /** The text of NUL-free characters followed by more is the text of the
      first ones followed by the text of the rest. */
  lemma {:induction false} TextAppend(a: seq<CodePoint>, b: seq<CodePoint>)
    requires NoNulChar(a)
    ensures Text(a + b) == Text(a) + Text(b)
  {
    if a == [] {
      assert a + b == b;
    } else {
      assert (a + b)[0] == a[0];
      assert (a + b)[1..] == a[1..] + b;
      TextAppend(a[1..], b);
    }
  }

  /** One step of the conversion: a non-NUL character is dropped when it
      is a surrogate, written when its UTF-8 form fits, skipped otherwise. */
  lemma Utf16sToUtf8sCons(c: CodePoint, rest: seq<CodePoint>, maxout: nat)
    requires c != 0 && maxout > 0
    ensures Utf16sToUtf8s([c] + rest, maxout) ==
              if IsSurrogate(c) then Utf16sToUtf8s(rest, maxout)
              else if |Utf8(c)| <= maxout then Utf8(c) + Utf16sToUtf8s(rest, maxout - |Utf8(c)|)
              else Utf16sToUtf8s(rest, maxout)
  {
    assert ([c] + rest)[1..] == rest;
  }

  /** The inductive step of `Utf16sToUtf8sAppend` for a surrogate at
      the head: it is dropped from both sides. */
  lemma AppendSurrogateStep(c: CodePoint, tail: seq<CodePoint>, b: seq<CodePoint>, maxout: nat)
    requires IsSurrogate(c) && maxout > 0 && |Text(tail)| <= maxout
    requires Utf16sToUtf8s(tail + b, maxout) ==
               Text(tail) + Utf16sToUtf8s(b, maxout - |Text(tail)|)
    ensures Text([c] + tail) == Text(tail)
    ensures Utf16sToUtf8s([c] + (tail + b), maxout) ==
              Text(tail) + Utf16sToUtf8s(b, maxout - |Text(tail)|)
  {
    assert ([c] + tail)[1..] == tail;
    Utf16sToUtf8sCons(c, tail + b, maxout);
  }

  /** The inductive step of `Utf16sToUtf8sAppend` for a character that
      fits: it is written first on both sides. */
  lemma AppendCharStep(c: CodePoint, tail: seq<CodePoint>, b: seq<CodePoint>, maxout: nat)
    requires c != 0 && !IsSurrogate(c) && |Utf8(c)| + |Text(tail)| <= maxout
    requires Utf16sToUtf8s(tail + b, maxout - |Utf8(c)|) ==
               Text(tail) + Utf16sToUtf8s(b, maxout - |Utf8(c)| - |Text(tail)|)
    ensures Text([c] + tail) == Utf8(c) + Text(tail)
    ensures Utf16sToUtf8s([c] + (tail + b), maxout) ==
              (Utf8(c) + Text(tail)) + Utf16sToUtf8s(b, maxout - |Utf8(c)| - |Text(tail)|)
  {
    assert ([c] + tail)[1..] == tail;
    Utf16sToUtf8sCons(c, tail + b, maxout);
  }

  /** Characters that convert within the room are written whole, and the
      rest of the input is converted into the room they leave. */
  lemma {:induction false} Utf16sToUtf8sAppend(a: seq<CodePoint>, b: seq<CodePoint>, maxout: nat)
    requires NoNulChar(a) && |Text(a)| <= maxout
    ensures Utf16sToUtf8s(a + b, maxout) == Text(a) + Utf16sToUtf8s(b, maxout - |Text(a)|)
  {
    if a == [] {
      assert a + b == b;
    } else if maxout == 0 {
      assert Text(a) == [];
    } else {
      var c, tail := a[0], a[1..];
      assert a == [c] + tail && a + b == [c] + (tail + b);
      if IsSurrogate(c) {
        assert Text(a) == Text(tail);
        Utf16sToUtf8sAppend(tail, b, maxout);
        AppendSurrogateStep(c, tail, b, maxout);
      } else {
        assert Text(a) == Utf8(c) + Text(tail);
        Utf16sToUtf8sAppend(tail, b, maxout - |Utf8(c)|);
        AppendCharStep(c, tail, b, maxout);
      }
    }
  }

  /** Characters in 1..0x7F convert to themselves, one byte each. */
  lemma {:induction false} TextOfAscii(cs: seq<CodePoint>)
    requires forall i :: 0 <= i < |cs| ==> 0 < cs[i] <= 0x7F
    ensures Text(cs) == cs
  {
    if cs != [] {
      TextOfAscii(cs[1..]);
      assert [cs[0]] + cs[1..] == cs;
    }
  }
}
